/**
 `admissions/cached_repository.go`: a Redis cache-aside in front of the three
 public catalog reads, cleared as a whole after a write. A Redis error is a
 miss, never a failure.
 */
module ReadCache {
  import opened Wrappers
  import opened Text
  import Identifiers

  /** A program query as parseProgramQuery lets it through. */
  datatype Query = Query(year: nat, school: string, program: string, search: string, limit: nat, offset: nat) {
    predicate Valid() {
      && (school == "" || Identifiers.IsThreeDigits(school))
      && (program == "" || Identifiers.IsThreeDigits(program))
    }
  }

  datatype Request = Programs(query: Query) | Program(id: Identifiers.Identifier) | Schools(year: nat) {
    predicate Valid() {
      match this
      case Programs(query) => query.Valid()
      case Program(id) => Identifiers.Valid(id)
      case Schools(_) => true
    }
  }

  const NAMESPACE := "cache:admissions:"
  const LIST := "cache:admissions:programs:list:"
  const GET := "cache:admissions:programs:get:"
  const SCHOOLS := "cache:admissions:schools:list:"

  function ListKeyBody(q: Query): string {
    Itoa(q.year) + ":" + (q.school + ":" + (q.program + ":" + (q.search + ":" + Itoa(q.limit) + ":" + Itoa(q.offset))))
  }

  function Key(r: Request): string
    requires r.Valid()
  {
    match r
    case Programs(query) => LIST + ListKeyBody(query)
    case Program(id) => GET + Identifiers.Print(id)
    case Schools(year) => SCHOOLS + Itoa(year)
  }

  // ---- keys -------------------------------------------------------------------------

  lemma CutFirst(a: string, x: string, b: string, y: string)
    requires ':' !in a && ':' !in b && a + ":" + x == b + ":" + y
    ensures a == b && x == y
  {
    IndexOfFirst(a, ':', x);
    IndexOfFirst(b, ':', y);
    var s := a + ":" + x;
    assert s[..|a|] == a && s[|a| + 1..] == x;
    assert (b + ":" + y)[..|b|] == b && (b + ":" + y)[|b| + 1..] == y;
  }

  lemma LastColon(x: string, a: string)
    requires ':' !in a
    ensures var s := x + ":" + a; s[|x|] == ':' && forall i :: |x| < i < |s| ==> s[i] != ':'
  {
  }

  lemma CutLast(x: string, a: string, y: string, b: string)
    requires ':' !in a && ':' !in b && x + ":" + a == y + ":" + b
    ensures a == b && x == y
  {
    var s, t := x + ":" + a, y + ":" + b;
    LastColon(x, a);
    LastColon(y, b);
    assert |x| == |y|;
    assert s[..|x|] == x && s[|x| + 1..] == a && t[..|y|] == y && t[|y| + 1..] == b;
  }

  lemma DigitsHaveNoColon(s: string)
    requires forall i :: 0 <= i < |s| ==> IsDigit(s[i])
    ensures ':' !in s
  {
  }

  lemma SearchPartInjective(p: Query, q: Query)
    requires p.search + ":" + Itoa(p.limit) + ":" + Itoa(p.offset)
      == q.search + ":" + Itoa(q.limit) + ":" + Itoa(q.offset)
    ensures p.search == q.search && p.limit == q.limit && p.offset == q.offset
  {
    DigitsHaveNoColon(Itoa(p.limit));
    DigitsHaveNoColon(Itoa(q.limit));
    DigitsHaveNoColon(Itoa(p.offset));
    DigitsHaveNoColon(Itoa(q.offset));
    CutLast(p.search + ":" + Itoa(p.limit), Itoa(p.offset), q.search + ":" + Itoa(q.limit), Itoa(q.offset));
    CutLast(p.search, Itoa(p.limit), q.search, Itoa(q.limit));
    ItoaInjective(p.limit, q.limit);
    ItoaInjective(p.offset, q.offset);
  }

  /** Distinct valid queries have distinct keys, although the search text may hold any number of colons. */
  lemma ListKeyInjective(p: Query, q: Query)
    requires p.Valid() && q.Valid() && ListKeyBody(p) == ListKeyBody(q)
    ensures p == q
  {
    DigitsHaveNoColon(Itoa(p.year));
    DigitsHaveNoColon(Itoa(q.year));
    DigitsHaveNoColon(p.school);
    DigitsHaveNoColon(q.school);
    DigitsHaveNoColon(p.program);
    DigitsHaveNoColon(q.program);
    var tailP := p.search + ":" + Itoa(p.limit) + ":" + Itoa(p.offset);
    var tailQ := q.search + ":" + Itoa(q.limit) + ":" + Itoa(q.offset);
    CutFirst(Itoa(p.year), p.school + ":" + (p.program + ":" + tailP), Itoa(q.year),
             q.school + ":" + (q.program + ":" + tailQ));
    CutFirst(p.school, p.program + ":" + tailP, q.school, q.program + ":" + tailQ);
    CutFirst(p.program, tailP, q.program, tailQ);
    SearchPartInjective(p, q);
    ItoaInjective(p.year, q.year);
  }

  lemma SamePrefixSameRest(prefix: string, x: string, y: string)
    requires prefix + x == prefix + y
    ensures x == y
  {
    assert (prefix + x)[|prefix|..] == x && (prefix + y)[|prefix|..] == y;
  }

  lemma FamiliesApart(x: string, y: string)
    ensures LIST + x != GET + y && LIST + x != SCHOOLS + y && GET + x != SCHOOLS + y
  {
    assert (LIST + x)[26] == 'l' && (GET + y)[26] == 'g';
    assert (LIST + x)[17] == 'p' && (GET + x)[17] == 'p' && (SCHOOLS + y)[17] == 's';
  }

  /** No two different requests of any kind ever share a cache entry. */
  lemma KeyInjective(r: Request, s: Request)
    requires r.Valid() && s.Valid() && Key(r) == Key(s)
    ensures r == s
  {
    match (r, s) {
      case (Programs(p), Programs(q)) =>
        SamePrefixSameRest(LIST, ListKeyBody(p), ListKeyBody(q));
        ListKeyInjective(p, q);
      case (Program(a), Program(b)) =>
        SamePrefixSameRest(GET, Identifiers.Print(a), Identifiers.Print(b));
        Identifiers.ParsePrint(a);
        Identifiers.ParsePrint(b);
      case (Schools(m), Schools(n)) =>
        SamePrefixSameRest(SCHOOLS, Itoa(m), Itoa(n));
        ItoaInjective(m, n);
      case (Programs(p), Program(b)) => FamiliesApart(ListKeyBody(p), Identifiers.Print(b));
      case (Programs(p), Schools(n)) => FamiliesApart(ListKeyBody(p), Itoa(n));
      case (Program(a), Programs(q)) => FamiliesApart(ListKeyBody(q), Identifiers.Print(a));
      case (Schools(m), Programs(q)) => FamiliesApart(ListKeyBody(q), Itoa(m));
      case (Program(a), Schools(n)) => FamiliesApart(Identifiers.Print(a), Itoa(n));
      case (Schools(m), Program(b)) => FamiliesApart(Identifiers.Print(b), Itoa(m));
    }
  }

  lemma KeyInNamespace(r: Request)
    requires r.Valid()
    ensures NAMESPACE <= Key(r)
  {
    assert NAMESPACE <= LIST && NAMESPACE <= GET && NAMESPACE <= SCHOOLS;
  }

  // ---- the cache ----------------------------------------------------------------------

  /** The database behind the repository: an answer in its JSON form, or an error. */
  type Repository = Request -> Option<string>

  /** Every entry is what the repository would answer now. */
  ghost predicate Coherent(cache: map<string, string>, repository: Repository) {
    forall r: Request :: r.Valid() && Key(r) in cache ==> repository(r) == Some(cache[Key(r)])
  }

  /**
   Storing an answer keeps the cache coherent exactly when it is still the
   repository's answer: a read that began before a write and ends after its
   Invalidate leaves a stale entry behind.
   */
  lemma StoreIsCoherentExactlyWhenCurrent(cache: map<string, string>, repository: Repository, r: Request,
                                          answer: string)
    requires r.Valid() && Coherent(cache, repository)
    ensures Coherent(cache[Key(r) := answer], repository) <==> repository(r) == Some(answer)
  {
    var stored := cache[Key(r) := answer];
    if repository(r) == Some(answer) {
      forall s: Request | s.Valid() && Key(s) in stored ensures repository(s) == Some(stored[Key(s)]) {
        if Key(s) == Key(r) {
          KeyInjective(s, r);
        }
      }
    } else {
      assert Key(r) in stored;
    }
  }

  /** Entries may expire at any time. */
  lemma ExpiryKeepsCoherence(cache: map<string, string>, expired: set<string>, repository: Repository)
    requires Coherent(cache, repository)
    ensures Coherent(cache - expired, repository)
  {
  }

  // ---- reads, writes and invalidations under way at once ----------------------------

  /** What a read that missed has been answered and not yet stored. */
  datatype Fetch = Fetch(request: Request, answer: string)

  datatype State = State(repository: Repository, cache: map<string, string>, fetches: map<nat, Fetch>)

  /**
   `Remove` is what an invalidation does to a part of the key space, or an
   expiry: it passes over these keys, and those in the cache leave it.
   */
  datatype Step =
    | Miss(call: nat, request: Request)
    | Store(call: nat)
    | GiveUp(call: nat)
    | Write(repository: Repository)
    | Remove(keys: iset<string>)

  ghost predicate Enabled(s: State, step: Step) {
    match step
    case Miss(call, r) => call !in s.fetches && r.Valid() && s.repository(r).Some?
    case Store(call) => call in s.fetches && s.fetches[call].request.Valid()
    case GiveUp(_) => true
    case Write(_) => true
    case Remove(_) => true
  }

  ghost function Next(s: State, step: Step): State
    requires Enabled(s, step)
  {
    match step
    case Miss(call, r) => s.(fetches := s.fetches[call := Fetch(r, s.repository(r).value)])
    case Store(call) =>
      s.(cache := s.cache[Key(s.fetches[call].request) := s.fetches[call].answer], fetches := s.fetches - {call})
    case GiveUp(call) => s.(fetches := s.fetches - {call})
    case Write(repository) => s.(repository := repository)
    case Remove(keys) => s.(cache := map k | k in s.cache && k !in keys :: s.cache[k])
  }

  /** The state after j steps. */
  ghost function StateAt(initial: State, steps: seq<Step>, j: nat): State
    requires j <= |steps|
  {
    if j == 0 then initial
    else
      var s := StateAt(initial, steps, j - 1);
      if Enabled(s, steps[j - 1]) then Next(s, steps[j - 1]) else s
  }

  ghost predicate Proceeds(initial: State, steps: seq<Step>, j: nat)
    requires j < |steps|
  {
    Enabled(StateAt(initial, steps, j), steps[j])
  }

  ghost predicate CanRun(initial: State, steps: seq<Step>) {
    forall j :: 0 <= j < |steps| ==> Proceeds(initial, steps, j)
  }

  /** A key the cache may hold. */
  ghost predicate InNamespace(key: string) {
    NAMESPACE <= key
  }

  /** What a complete invalidation passes over. */
  ghost function WholeNamespace(): iset<string> {
    iset key | InNamespace(key)
  }

  /** After j steps, nothing was ever written, or the key has been passed over since the last write. */
  ghost predicate Settled(steps: seq<Step>, j: nat, key: string)
    requires j <= |steps|
  {
    j == 0 ||
    match steps[j - 1]
    case Write(_) => false
    case Remove(keys) => key in keys || Settled(steps, j - 1, key)
    case _ => Settled(steps, j - 1, key)
  }

  /** Every entry under a settled key is what the repository would answer now. */
  ghost predicate CurrentAt(s: State, steps: seq<Step>, j: nat)
    requires j <= |steps|
  {
    forall r: Request :: r.Valid() && Key(r) in s.cache && Settled(steps, j, Key(r)) ==>
      s.repository(r) == Some(s.cache[Key(r)])
  }

  ghost predicate CurrentThroughout(initial: State, steps: seq<Step>) {
    forall j :: 0 <= j <= |steps| ==> CurrentAt(StateAt(initial, steps, j), steps, j)
  }

  // ---- when that is so: in terms of the schedule ------------------------------------

  /** The repository after the writes among the first j steps. */
  ghost function RepositoryAfter(initial: Repository, steps: seq<Step>, j: nat): Repository
    requires j <= |steps|
  {
    if j == 0 then initial
    else if steps[j - 1].Write? then steps[j - 1].repository
    else RepositoryAfter(initial, steps, j - 1)
  }

  /** Step i is the miss whose answer the call stores after `before` steps: its last one. */
  ghost predicate Answered(steps: seq<Step>, i: nat, call: nat, before: nat)
    requires before <= |steps|
  {
    && i < before && steps[i].Miss? && steps[i].call == call && steps[i].request.Valid()
    && forall k :: i < k < before && steps[k].Miss? ==> steps[k].call != call
  }

  /** If step j stores under a settled key, the repository still gives that call's miss its answer. */
  ghost predicate StoreInTime(initial: Repository, steps: seq<Step>, j: nat)
    requires j < |steps|
  {
    steps[j].Store? ==>
      forall i: nat :: Answered(steps, i, steps[j].call, j) && Settled(steps, j, Key(steps[i].request)) ==>
        RepositoryAfter(initial, steps, j)(steps[i].request) == RepositoryAfter(initial, steps, i)(steps[i].request)
  }

  ghost predicate StoresInTime(initial: Repository, steps: seq<Step>) {
    forall j :: 0 <= j < |steps| ==> StoreInTime(initial, steps, j)
  }

  // ---- proof ---------------------------------------------------------------------------

  ghost predicate StoreCurrent(s: State, steps: seq<Step>, j: nat)
    requires j < |steps| && Enabled(s, steps[j])
  {
    steps[j].Store? ==>
      var fetch := s.fetches[steps[j].call];
      Settled(steps, j, Key(fetch.request)) ==> s.repository(fetch.request) == Some(fetch.answer)
  }

  lemma StepKeepsCurrent(s: State, steps: seq<Step>, j: nat)
    requires j < |steps| && Enabled(s, steps[j]) && CurrentAt(s, steps, j)
    ensures CurrentAt(Next(s, steps[j]), steps, j + 1) <==> StoreCurrent(s, steps, j)
  {
    var s' := Next(s, steps[j]);
    if steps[j].Store? {
      var stored := s.fetches[steps[j].call].request;
      assert Key(stored) in s'.cache;
      if StoreCurrent(s, steps, j) {
        forall r: Request | r.Valid() && Key(r) in s'.cache && Settled(steps, j + 1, Key(r))
          ensures s'.repository(r) == Some(s'.cache[Key(r)])
        {
          if Key(r) == Key(stored) {
            KeyInjective(r, stored);
          }
        }
      }
    }
  }

  /** Step i is the miss of the read under way, and its answer the repository's at that moment. */
  ghost predicate Records(initial: Repository, steps: seq<Step>, j: nat, i: nat, call: nat, fetch: Fetch)
    requires j <= |steps|
  {
    && Answered(steps, i, call, j) && fetch.request == steps[i].request
    && Some(fetch.answer) == RepositoryAfter(initial, steps, i)(steps[i].request)
  }

  ghost predicate HasRecord(initial: Repository, steps: seq<Step>, j: nat, call: nat, fetch: Fetch)
    requires j <= |steps|
  {
    exists i: nat :: Records(initial, steps, j, i, call, fetch)
  }

  /** What a run holds after j steps. */
  ghost predicate Recorded(initial: Repository, steps: seq<Step>, j: nat, s: State)
    requires j <= |steps|
  {
    && s.repository == RepositoryAfter(initial, steps, j)
    && forall call :: call in s.fetches ==> HasRecord(initial, steps, j, call, s.fetches[call])
  }

  lemma RecordStays(initial: Repository, steps: seq<Step>, j: nat, i: nat, call: nat, fetch: Fetch)
    requires j < |steps| && Records(initial, steps, j, i, call, fetch) && !(steps[j].Miss? && steps[j].call == call)
    ensures Records(initial, steps, j + 1, i, call, fetch)
  {
  }

  lemma FetchOrigin(s: State, step: Step, call: nat)
    requires Enabled(s, step) && call in Next(s, step).fetches
    ensures if step.Miss? && step.call == call
      then Next(s, step).fetches[call].request == step.request
        && Some(Next(s, step).fetches[call].answer) == s.repository(step.request)
      else call in s.fetches && Next(s, step).fetches[call] == s.fetches[call]
  {
  }

  lemma RecordedStep(initial: Repository, steps: seq<Step>, j: nat, s: State)
    requires j < |steps| && Recorded(initial, steps, j, s) && Enabled(s, steps[j])
    ensures Recorded(initial, steps, j + 1, Next(s, steps[j]))
  {
    var s' := Next(s, steps[j]);
    forall call | call in s'.fetches
      ensures HasRecord(initial, steps, j + 1, call, s'.fetches[call])
    {
      FetchOrigin(s, steps[j], call);
      if steps[j].Miss? && steps[j].call == call {
        assert Records(initial, steps, j + 1, j, call, s'.fetches[call]);
      } else {
        var i: nat :| Records(initial, steps, j, i, call, s.fetches[call]);
        RecordStays(initial, steps, j, i, call, s.fetches[call]);
      }
    }
  }

  lemma {:induction false} RunIsRecorded(initial: State, steps: seq<Step>, j: nat)
    requires initial.fetches == map[] && CanRun(initial, steps) && j <= |steps|
    ensures Recorded(initial.repository, steps, j, StateAt(initial, steps, j))
    decreases j
  {
    if j > 0 {
      RunIsRecorded(initial, steps, j - 1);
      assert Proceeds(initial, steps, j - 1);
      RecordedStep(initial.repository, steps, j - 1, StateAt(initial, steps, j - 1));
    }
  }

  lemma StoreAtIndex(initial: State, steps: seq<Step>, j: nat)
    requires initial.fetches == map[] && CanRun(initial, steps) && j < |steps|
    ensures Proceeds(initial, steps, j)
    ensures StoreCurrent(StateAt(initial, steps, j), steps, j) <==> StoreInTime(initial.repository, steps, j)
  {
    assert Proceeds(initial, steps, j);
    RunIsRecorded(initial, steps, j);
    var s := StateAt(initial, steps, j);
    if steps[j].Store? {
      var call := steps[j].call;
      var i: nat :| Records(initial.repository, steps, j, i, call, s.fetches[call]);
      forall k: nat | Answered(steps, k, call, j) ensures k == i {
      }
    }
  }

  lemma {:induction false} CurrentWhileStoresAre(initial: State, steps: seq<Step>, j: nat)
    requires CanRun(initial, steps) && Coherent(initial.cache, initial.repository) && j <= |steps|
    requires initial.fetches == map[] && StoresInTime(initial.repository, steps)
    ensures CurrentAt(StateAt(initial, steps, j), steps, j)
    decreases j
  {
    if j > 0 {
      CurrentWhileStoresAre(initial, steps, j - 1);
      assert Proceeds(initial, steps, j - 1);
      StoreAtIndex(initial, steps, j - 1);
      StepKeepsCurrent(StateAt(initial, steps, j - 1), steps, j - 1);
    }
  }

  /**
   Over every run of overlapping reads, writes, invalidations that may fail,
   take their time or overlap, and expiries, from a current cache and no read
   under way: every entry whose key has been passed over since the last write
   is current at every moment exactly when every store under such a key lands
   while the repository gives the request the answer it gave at the call's miss.
   A read that a write overtakes does no harm if it stores nothing, stores
   before the invalidation gets to its key, or once its answer holds again.
   */
  lemma CurrentExactlyWhenStoresInTime(repository: Repository, cache: map<string, string>, steps: seq<Step>)
    requires Coherent(cache, repository) && CanRun(State(repository, cache, map[]), steps)
    ensures CurrentThroughout(State(repository, cache, map[]), steps) <==> StoresInTime(repository, steps)
  {
    var initial := State(repository, cache, map[]);
    if CurrentThroughout(initial, steps) {
      forall j | 0 <= j < |steps| ensures StoreInTime(repository, steps, j) {
        StoreAtIndex(initial, steps, j);
        assert CurrentAt(StateAt(initial, steps, j), steps, j);
        assert CurrentAt(StateAt(initial, steps, j + 1), steps, j + 1);
        StepKeepsCurrent(StateAt(initial, steps, j), steps, j);
      }
    }
    if StoresInTime(repository, steps) {
      forall j | 0 <= j <= |steps| ensures CurrentAt(StateAt(initial, steps, j), steps, j) {
        CurrentWhileStoresAre(initial, steps, j);
      }
    }
  }

  /** The whole cache is then current whenever the invalidation of the last write has passed over every key. */
  lemma InvalidatedIsCoherent(repository: Repository, cache: map<string, string>, steps: seq<Step>, j: nat)
    requires Coherent(cache, repository) && CanRun(State(repository, cache, map[]), steps) && j <= |steps|
    requires StoresInTime(repository, steps) && forall key :: InNamespace(key) ==> Settled(steps, j, key)
    ensures var s := StateAt(State(repository, cache, map[]), steps, j); Coherent(s.cache, s.repository)
  {
    var s := StateAt(State(repository, cache, map[]), steps, j);
    CurrentExactlyWhenStoresInTime(repository, cache, steps);
    assert CurrentAt(s, steps, j);
    forall r: Request | r.Valid() && Key(r) in s.cache ensures s.repository(r) == Some(s.cache[Key(r)]) {
      KeyInNamespace(r);
    }
  }

  // ---- a rule a caller can follow ----------------------------------------------------------

  ghost predicate FetchesCurrent(s: State, repository: Repository) {
    forall call :: call in s.fetches ==> repository(s.fetches[call].request) == Some(s.fetches[call].answer)
  }

  /** No write overlaps a read whose answer it changes. */
  ghost predicate NoOverlap(initial: State, steps: seq<Step>) {
    forall j :: 0 <= j < |steps| && steps[j].Write? ==>
      FetchesCurrent(StateAt(initial, steps, j), steps[j].repository)
  }

  lemma FetchesStep(initial: State, steps: seq<Step>, j: nat)
    requires j < |steps| && Proceeds(initial, steps, j)
    requires var s := StateAt(initial, steps, j);
      FetchesCurrent(s, s.repository) && (steps[j].Write? ==> FetchesCurrent(s, steps[j].repository))
    ensures var s := StateAt(initial, steps, j + 1); FetchesCurrent(s, s.repository)
  {
  }

  lemma {:induction false} FetchesStayCurrent(initial: State, steps: seq<Step>, j: nat)
    requires initial.fetches == map[] && CanRun(initial, steps) && NoOverlap(initial, steps) && j <= |steps|
    ensures FetchesCurrent(StateAt(initial, steps, j), StateAt(initial, steps, j).repository)
    decreases j
  {
    if j > 0 {
      FetchesStayCurrent(initial, steps, j - 1);
      assert Proceeds(initial, steps, j - 1);
      FetchesStep(initial, steps, j - 1);
    }
  }

  /** While no write overlaps a read whose answer it changes, every store is in time. */
  lemma NoOverlapKeepsCurrent(repository: Repository, cache: map<string, string>, steps: seq<Step>)
    requires Coherent(cache, repository) && CanRun(State(repository, cache, map[]), steps)
    requires NoOverlap(State(repository, cache, map[]), steps)
    ensures StoresInTime(repository, steps) && CurrentThroughout(State(repository, cache, map[]), steps)
  {
    var initial := State(repository, cache, map[]);
    forall j | 0 <= j < |steps| ensures StoreInTime(repository, steps, j) {
      FetchesStayCurrent(initial, steps, j);
      StoreAtIndex(initial, steps, j);
    }
    CurrentExactlyWhenStoresInTime(repository, cache, steps);
  }

  /** The overlapping read: it stores the old answer after a complete invalidation, and the entry stays. */
  lemma OverlappingReadStaysStale(r: Request, before: Repository, after: Repository, call: nat)
    requires r.Valid() && before(r).Some? && after(r) != before(r)
    ensures var steps := [Miss(call, r), Write(after), Remove(WholeNamespace()), Store(call)];
      var end := StateAt(State(before, map[], map[]), steps, 4);
      && CanRun(State(before, map[], map[]), steps) && (forall key :: InNamespace(key) ==> Settled(steps, 4, key))
      && Key(r) in end.cache && end.repository(r) != Some(end.cache[Key(r)])
  {
    var initial := State(before, map[], map[]);
    var steps := [Miss(call, r), Write(after), Remove(WholeNamespace()), Store(call)];
    assert StateAt(initial, steps, 1) == Next(initial, steps[0]);
    assert StateAt(initial, steps, 2) == Next(StateAt(initial, steps, 1), steps[1]);
    assert StateAt(initial, steps, 3) == Next(StateAt(initial, steps, 2), steps[2]);
    assert Enabled(StateAt(initial, steps, 3), steps[3]);
    forall key | InNamespace(key) ensures Settled(steps, 4, key) {
      assert Settled(steps, 3, key);
    }
  }

  // ---- the repository ------------------------------------------------------------------

  /**
   The keys an invalidation deletes from what is left of the walk: page by page,
   those in the namespace, until a scan fails; a failing delete spares its
   page. Scans and deletes are numbered from `n`.
   */
  function Deleted(walk: seq<string>, page: nat, scanFails: nat -> bool, deleteFails: nat -> bool,
                   n: nat): set<string>
    requires page >= 1
    decreases |walk|
  {
    if walk == [] || scanFails(n) then {}
    else
      var next := if page < |walk| then page else |walk|;
      (if deleteFails(n) then {} else set i | 0 <= i < next && NAMESPACE <= walk[i] :: walk[i])
      + Deleted(walk[next..], page, scanFails, deleteFails, n + 1)
  }

  /** The number of the page that position i of the walk is on. */
  function PageOf(i: nat, page: nat): nat
    requires page >= 1
    decreases i
  {
    if i < page then 0 else 1 + PageOf(i - page, page)
  }

  /** No scan up to the position's page fails, nor does the delete of that page. */
  ghost predicate Reached(i: nat, page: nat, scanFails: nat -> bool, deleteFails: nat -> bool, n: nat)
    requires page >= 1
  {
    (forall k :: n <= k <= n + PageOf(i, page) ==> !scanFails(k)) && !deleteFails(n + PageOf(i, page))
  }

  lemma ReachedLater(i: nat, page: nat, scanFails: nat -> bool, deleteFails: nat -> bool, n: nat)
    requires page >= 1 && i >= page && !scanFails(n)
    ensures Reached(i, page, scanFails, deleteFails, n) <==> Reached(i - page, page, scanFails, deleteFails, n + 1)
  {
  }

  /** The key stands at position i, on a page that is reached. */
  ghost predicate Hit(walk: seq<string>, page: nat, scanFails: nat -> bool, deleteFails: nat -> bool, n: nat,
                      key: string, i: nat)
    requires page >= 1
  {
    i < |walk| && walk[i] == key && Reached(i, page, scanFails, deleteFails, n)
  }

  ghost predicate SomeHit(walk: seq<string>, page: nat, scanFails: nat -> bool, deleteFails: nat -> bool, n: nat,
                          key: string)
    requires page >= 1
  {
    exists i: nat :: Hit(walk, page, scanFails, deleteFails, n, key, i)
  }

  lemma HitLater(walk: seq<string>, page: nat, scanFails: nat -> bool, deleteFails: nat -> bool, n: nat, key: string)
    requires page >= 1 && walk != [] && !scanFails(n)
    ensures var next := if page < |walk| then page else |walk|;
      SomeHit(walk, page, scanFails, deleteFails, n, key)
      <==> (!deleteFails(n) && key in walk[..next])
           || SomeHit(walk[next..], page, scanFails, deleteFails, n + 1, key)
  {
    var next := if page < |walk| then page else |walk|;
    if i: nat :| Hit(walk, page, scanFails, deleteFails, n, key, i) {
      if i < next {
        assert walk[..next][i] == key;
      } else {
        ReachedLater(i, page, scanFails, deleteFails, n);
        assert Hit(walk[next..], page, scanFails, deleteFails, n + 1, key, i - next);
      }
    }
    if !deleteFails(n) && key in walk[..next] {
      var i :| 0 <= i < next && walk[..next][i] == key;
      assert Hit(walk, page, scanFails, deleteFails, n, key, i);
    }
    var rest, m: nat := walk[next..], n + 1;
    if j: nat :| Hit(rest, page, scanFails, deleteFails, m, key, j) {
      ReachedLater(next + j, page, scanFails, deleteFails, n);
      assert Hit(walk, page, scanFails, deleteFails, n, key, next + j);
    }
  }

  lemma {:induction false} DeletedFrom(walk: seq<string>, page: nat, scanFails: nat -> bool, deleteFails: nat -> bool,
                                       n: nat, key: string)
    requires page >= 1
    ensures key in Deleted(walk, page, scanFails, deleteFails, n)
      <==> NAMESPACE <= key && SomeHit(walk, page, scanFails, deleteFails, n, key)
    decreases |walk|
  {
    if walk != [] && !scanFails(n) {
      var next := if page < |walk| then page else |walk|;
      DeletedFrom(walk[next..], page, scanFails, deleteFails, n + 1, key);
      HitLater(walk, page, scanFails, deleteFails, n, key);
      assert key in walk[..next] <==> exists i :: 0 <= i < next && walk[i] == key;
    }
  }

  /**
   An invalidation deletes exactly the keys of the namespace on the pages whose
   scan is reached and whose delete succeeds, whatever deletes failed before.
   */
  lemma DeletedExactly(walk: seq<string>, page: nat, scanFails: nat -> bool, deleteFails: nat -> bool, key: string)
    requires page >= 1
    ensures key in Deleted(walk, page, scanFails, deleteFails, 0) <==>
      "cache:admissions:" <= key && exists i: nat :: Hit(walk, page, scanFails, deleteFails, 0, key, i)
  {
    DeletedFrom(walk, page, scanFails, deleteFails, 0, key);
  }

  lemma DeletedInNamespace(walk: seq<string>, page: nat, scanFails: nat -> bool, deleteFails: nat -> bool)
    requires page >= 1
    ensures forall k :: k in Deleted(walk, page, scanFails, deleteFails, 0) ==> NAMESPACE <= k
    ensures (forall n :: !scanFails(n) && !deleteFails(n)) ==>
      forall i :: 0 <= i < |walk| && NAMESPACE <= walk[i] ==> walk[i] in Deleted(walk, page, scanFails, deleteFails, 0)
  {
    forall key | key in Deleted(walk, page, scanFails, deleteFails, 0) ensures NAMESPACE <= key {
      DeletedExactly(walk, page, scanFails, deleteFails, key);
    }
    if forall n :: !scanFails(n) && !deleteFails(n) {
      forall i | 0 <= i < |walk| && NAMESPACE <= walk[i]
        ensures walk[i] in Deleted(walk, page, scanFails, deleteFails, 0)
      {
        DeletedExactly(walk, page, scanFails, deleteFails, walk[i]);
        assert Hit(walk, page, scanFails, deleteFails, 0, walk[i], i);
      }
    }
  }

  /**
   After a write and an invalidation that may have failed, the stale entries
   are exactly those that were cached, not deleted, and changed by the write.
   */
  lemma StaleAfterFailure(cache: map<string, string>, deleted: set<string>, before: Repository, after: Repository,
                          r: Request)
    requires r.Valid() && Coherent(cache, before)
    ensures (Key(r) in cache - deleted && after(r) != Some((cache - deleted)[Key(r)])) <==>
      Key(r) in cache && Key(r) !in deleted && after(r) != before(r)
  {
  }

  class CachedRepository {
    var cache: map<string, string>
    var inner: Repository

    constructor (repository: Repository)
      ensures inner == repository && cache == map[]
    {
      cache, inner := map[], repository;
    }

    /** getCached, then the inner repository, then setCached; `up` and `storable` are whether Redis answers. */
    method Read(r: Request, up: bool, storable: bool) returns (answer: Option<string>)
      requires r.Valid() && Coherent(cache, inner)
      modifies `cache
      ensures answer == inner(r) && Coherent(cache, inner)
      ensures forall k :: k in old(cache) ==> k in cache
    {
      var key := Key(r);
      if up && key in cache {
        return Some(cache[key]);
      }
      answer := inner(r);
      if answer.Some? && storable {
        StoreIsCoherentExactlyWhenCurrent(cache, inner, r, answer.value);
        cache := cache[key := answer.value];
      }
    }

    method ListPrograms(query: Query, up: bool, storable: bool) returns (answer: Option<string>)
      requires query.Valid() && Coherent(cache, inner)
      modifies `cache
      ensures answer == inner(Programs(query)) && Coherent(cache, inner)
    {
      answer := Read(Programs(query), up, storable);
    }

    method GetProgram(id: Identifiers.Identifier, up: bool, storable: bool) returns (answer: Option<string>)
      requires Identifiers.Valid(id) && Coherent(cache, inner)
      modifies `cache
      ensures answer == inner(Program(id)) && Coherent(cache, inner)
    {
      answer := Read(Program(id), up, storable);
    }

    method ListSchools(year: nat, up: bool, storable: bool) returns (answer: Option<string>)
      requires Coherent(cache, inner)
      modifies `cache
      ensures answer == inner(Schools(year)) && Coherent(cache, inner)
    {
      answer := Read(Schools(year), up, storable);
    }

    /**
     Scans the key space in pages, in whatever order Redis walks it, deleting
     what is in the namespace. A failing scan ends the loop early, a failing
     delete is passed over, and neither is reported.
     */
    method Invalidate(walk: seq<string>, page: nat, scanFails: nat -> bool, deleteFails: nat -> bool)
      requires page >= 1
      modifies `cache
      ensures cache == old(cache) - Deleted(walk, page, scanFails, deleteFails, 0)
    {
      var rest, n: nat := walk, 0;
      while rest != []
        invariant cache - Deleted(rest, page, scanFails, deleteFails, n)
          == old(cache) - Deleted(walk, page, scanFails, deleteFails, 0)
        decreases |rest|
      {
        if scanFails(n) {
          assert cache - {} == cache;
          return;
        }
        var next := if page < |rest| then page else |rest|;
        var found := set i | 0 <= i < next && NAMESPACE <= rest[i] :: rest[i];
        ghost var later := Deleted(rest[next..], page, scanFails, deleteFails, n + 1);
        if !deleteFails(n) {
          assert cache - found - later == cache - (found + later);
          cache := cache - found;
        }
        rest, n := rest[next..], n + 1;
      }
      assert cache - {} == cache;
    }

    /**
     A write and its invalidation. What is stale afterwards is what was cached,
     was not deleted and has changed; without failures, nothing is.
     */
    method WriteAndInvalidate(updated: Repository, walk: seq<string>, page: nat, scanFails: nat -> bool,
                              deleteFails: nat -> bool)
      requires page >= 1 && Coherent(cache, inner) && forall k :: k in cache ==> k in walk
      modifies this
      ensures inner == updated && cache == old(cache) - Deleted(walk, page, scanFails, deleteFails, 0)
      ensures Coherent(cache, inner) <==>
        forall r: Request ::
          r.Valid() && Key(r) in old(cache) && Key(r) !in Deleted(walk, page, scanFails, deleteFails, 0) ==>
          updated(r) == old(inner)(r)
      ensures (forall n :: !scanFails(n) && !deleteFails(n)) ==> Coherent(cache, inner)
    {
      ghost var before, entries := inner, cache;
      inner := updated;
      Invalidate(walk, page, scanFails, deleteFails);
      ghost var deleted := Deleted(walk, page, scanFails, deleteFails, 0);
      forall r: Request | r.Valid()
        ensures (Key(r) in cache && inner(r) != Some(cache[Key(r)])) <==>
                Key(r) in entries && Key(r) !in deleted && updated(r) != before(r)
      {
        StaleAfterFailure(entries, deleted, before, updated, r);
      }
      if forall n :: !scanFails(n) && !deleteFails(n) {
        DeletedInNamespace(walk, page, scanFails, deleteFails);
        forall r: Request | r.Valid() ensures Key(r) !in cache {
          KeyInNamespace(r);
        }
      }
    }
  }
}
