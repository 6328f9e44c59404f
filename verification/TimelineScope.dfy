/**
 `admissions/timeline_input_normalization.go`: leading scope notes such as
 （資工系、電機系） or （除法律系） decide which program receives an imported event
 and are stripped from the names of the events it keeps.
 */
module TimelineScope {
  import opened Wrappers
  import opened Text
  import Paging

  datatype Event = Event(
    name: string, startDate: string, startTime: string, endDate: string, endTime: string, sortOrder: int, notes: string)

  const WHOLE_DEPARTMENT := "全系"
  const WHOLE_SCHOOL := "全校"
  const EXCEPT := '除'

  predicate IsSeparator(c: char) {
    c == '、' || c == '，' || c == ','
  }

  /** strings.FieldsFunc on the three separators, each part trimmed; a part of spaces only stays, as "". */
  function Departments(scope: string): seq<string>
    decreases |scope|
  {
    if scope == "" then []
    else if IsSeparator(scope[0]) then Departments(scope[1..])
    else [Trim(scope[..PartLen(scope)])] + Departments(scope[PartLen(scope)..])
  }

  function PartLen(s: string): (n: nat)
    ensures n <= |s| && (s != "" && !IsSeparator(s[0]) ==> n > 0)
  {
    if s == "" || IsSeparator(s[0]) then 0 else 1 + PartLen(s[1..])
  }

  predicate NamesDepartment(part: string) {
    Contains(part, "系") || Contains(part, "學程") || HasSuffix(part, "組")
  }

  predicate IsScope(scope: string) {
    || scope == WHOLE_DEPARTMENT || scope == WHOLE_SCHOOL || (scope != "" && scope[0] == EXCEPT)
    || (Departments(scope) != [] && forall part :: part in Departments(scope) ==> NamesDepartment(part))
  }

  function Compact(value: string): string {
    Join(Fields(Trim(value)), "")
  }

  predicate NamesProgram(scope: string, program: string) {
    exists part :: part in Departments(scope) && Compact(part) != "" && Contains(Compact(program), Compact(part))
  }

  predicate Applies(scope: string, program: string) {
    if scope == WHOLE_DEPARTMENT || scope == WHOLE_SCHOOL then true
    else if scope != "" && scope[0] == EXCEPT then !NamesProgram(Trim(scope[1..]), program)
    else NamesProgram(scope, program)
  }

  /** Past the opening bracket: the scope up to the closing one, and the trimmed rest. */
  function SplitAt(body: string, closing: char): (r: Option<(string, string)>)
    ensures r.Some? ==> IsScope(r.value.0) && |r.value.1| < |body|
  {
    match IndexOf(body, closing)
    case None => None
    case Some(i) =>
      TrimIsTrimmed(body[i + 1..]);
      if IsScope(Trim(body[..i])) then Some((Trim(body[..i]), Trim(body[i + 1..]))) else None
  }

  /** A leading scope and what follows it; None when the name does not start with one. */
  function SplitLeading(raw: string): (r: Option<(string, string)>)
    ensures r.Some? ==> IsScope(r.value.0) && |r.value.1| < |raw|
  {
    var name := Trim(raw);
    TrimIsTrimmed(raw);
    if name == "" || (name[0] != '(' && name[0] != '（') then None
    else SplitAt(name[1..], if name[0] == '(' then ')' else '）')
  }

  /** The name a program keeps the event under, or None when some scope excludes the program. */
  function Strip(name: string, program: string): Option<string>
    decreases |name|
  {
    match SplitLeading(name)
    case None => Some(name)
    case Some((scope, rest)) => if Applies(scope, program) then Strip(rest, program) else None
  }

  /** The events a program keeps, in order. */
  function Kept(events: seq<Event>, program: string): seq<Event> {
    if events == [] then []
    else
      var n := |events| - 1;
      match Strip(events[n].name, program)
      case None => Kept(events[..n], program)
      case Some(name) => Kept(events[..n], program) + [events[n].(name := name)]
  }

  /** Each round shortens the name, so the inner loop ends. */
  method NormalizeTimelineEventsForProgram(events: seq<Event>, program: string) returns (normalized: seq<Event>)
    ensures normalized == Kept(events, program)
  {
    normalized := [];
    for i := 0 to |events|
      invariant normalized == Kept(events[..i], program)
    {
      assert events[..i + 1][..i] == events[..i];
      var event := events[i];
      var keep := true;
      while keep
        invariant event == events[i].(name := event.name)
        invariant keep ==> Strip(event.name, program) == Strip(events[i].name, program)
        invariant !keep ==> Strip(events[i].name, program).None?
        decreases keep, |event.name|
      {
        var split := SplitLeading(event.name);
        if split.None? {
          break;
        }
        if !Applies(split.value.0, program) {
          keep := false;
          break;
        }
        event := event.(name := split.value.1);
      }
      if keep {
        normalized := normalized + [event];
      }
    }
    assert events[..|events|] == events;
  }

  // ---- what stripping keeps --------------------------------------------------------

  /** What is left carries no further scope. */
  lemma {:induction false} StrippedHasNoScope(name: string, program: string)
    requires Strip(name, program).Some?
    ensures SplitLeading(Strip(name, program).value).None?
    ensures |Strip(name, program).value| <= |name|
    decreases |name|
  {
    if SplitLeading(name).Some? {
      StrippedHasNoScope(SplitLeading(name).value.1, program);
    }
  }

  /** The positions of the kept events, ascending. */
  function KeptAt(events: seq<Event>, program: string): (at: seq<nat>)
    ensures forall k :: 0 <= k < |at| ==> at[k] < |events|
  {
    if events == [] then []
    else
      var n := |events| - 1;
      if Strip(events[n].name, program).Some? then KeptAt(events[..n], program) + [n] else KeptAt(events[..n], program)
  }

  lemma {:induction false} KeptAtAscends(events: seq<Event>, program: string)
    ensures Paging.Ascending(KeptAt(events, program))
    decreases |events|
  {
    if events != [] {
      var n := |events| - 1;
      var rest := KeptAt(events[..n], program);
      KeptAtAscends(events[..n], program);
      assert |events[..n]| == n;
      assert forall k :: 0 <= k < |rest| ==> rest[k] < n;
    }
  }

  lemma {:induction false} KeptAtComplete(events: seq<Event>, program: string, i: nat)
    requires i < |events| && Strip(events[i].name, program).Some?
    ensures i in KeptAt(events, program)
    decreases |events|
  {
    if i < |events| - 1 {
      KeptAtComplete(events[..|events| - 1], program, i);
    }
  }

  ghost predicate Follows(events: seq<Event>, program: string, at: seq<nat>, kept: seq<Event>) {
    && |at| == |kept|
    && forall k :: 0 <= k < |at| ==>
         at[k] < |events| && Strip(events[at[k]].name, program) == Some(kept[k].name)
         && kept[k] == events[at[k]].(name := kept[k].name)
  }

  lemma {:induction false} KeptFollows(events: seq<Event>, program: string)
    ensures Follows(events, program, KeptAt(events, program), Kept(events, program))
    decreases |events|
  {
    if events != [] {
      KeptFollows(events[..|events| - 1], program);
    }
  }

  /** The result is the accepted events, all of them, in input order, each changed in nothing but its stripped name. */
  lemma KeepsInputOrder(events: seq<Event>, program: string)
    ensures var at := KeptAt(events, program);
      && Follows(events, program, at, Kept(events, program))
      && Paging.Ascending(at)
      && (forall i :: 0 <= i < |events| && Strip(events[i].name, program).Some? ==> i in at)
  {
    KeptFollows(events, program);
    KeptAtAscends(events, program);
    forall i | 0 <= i < |events| && Strip(events[i].name, program).Some? ensures i in KeptAt(events, program) {
      KeptAtComplete(events, program, i);
    }
  }

  /** Normalising again for the same program changes nothing. */
  lemma {:induction false} KeptIsStable(events: seq<Event>, program: string)
    ensures Kept(Kept(events, program), program) == Kept(events, program)
    decreases |events|
  {
    if events != [] {
      var n := |events| - 1;
      KeptIsStable(events[..n], program);
      match Strip(events[n].name, program) {
        case None =>
        case Some(name) =>
          StrippedHasNoScope(events[n].name, program);
          var kept := Kept(events, program);
          assert kept[..|kept| - 1] == Kept(events[..n], program);
      }
    }
  }

  // ---- a scope and its exception ---------------------------------------------------

  /** Half-width and full-width brackets are treated alike. */
  predicate IsClosing(c: char) {
    c == ')' || c == '）'
  }

  function Bracketed(s: string, name: string, closing: char): string {
    [if closing == ')' then '(' else '（'] + s + [closing] + name
  }

  /** Text that can stand between the brackets as a plain list of departments. */
  predicate IsList(s: string, closing: char) {
    && s != "" && Trimmed(s) && closing !in s && s[0] != EXCEPT
    && Departments(s) != [] && forall part :: part in Departments(s) ==> NamesDepartment(part)
  }

  lemma SplitsAtBracket(s: string, name: string, closing: char)
    requires Trimmed(s) && closing !in s && IsScope(s) && Trimmed(name)
    ensures SplitAt(s + [closing] + name, closing) == Some((s, name))
  {
    var body := s + [closing] + name;
    IndexOfFirst(s, closing, name);
    assert body[..|s|] == s && body[|s| + 1..] == name;
    TrimIsTrimmed(s);
    TrimIsTrimmed(name);
  }

  lemma BracketedIsTrimmed(s: string, name: string, closing: char)
    requires IsClosing(closing) && Trimmed(name)
    ensures var raw := Bracketed(s, name, closing);
      Trimmed(raw) && raw[0] == (if closing == ')' then '(' else '（') && raw[1..] == s + [closing] + name
  {
    var raw := Bracketed(s, name, closing);
    assert raw[|raw| - 1] == if name == "" then closing else name[|name| - 1];
  }

  lemma BracketedSplits(s: string, name: string, closing: char)
    requires IsClosing(closing) && Trimmed(s) && closing !in s && IsScope(s) && Trimmed(name)
    ensures SplitLeading(Bracketed(s, name, closing)) == Some((s, name))
  {
    BracketedIsTrimmed(s, name, closing);
    TrimIsTrimmed(Bracketed(s, name, closing));
    SplitsAtBracket(s, name, closing);
  }

  /**
   For a department list s on a name with no further scope, the event marked
   （s） is kept exactly when the one marked （除s） is dropped - except that the
   words 全系 and 全校 are special only without 除, and then both are kept
   unless the program's name contains the word.
   */
  lemma ScopeAndExceptionAreOpposite(s: string, name: string, program: string, closing: char)
    requires IsClosing(closing) && IsList(s, closing) && Trimmed(name) && SplitLeading(name).None?
    ensures var kept := Strip(Bracketed(s, name, closing), program).Some?;
      var keptByException := Strip(Bracketed([EXCEPT] + s, name, closing), program).Some?;
      && (kept || keptByException)
      && ((kept <==> !keptByException) <==> s !in {WHOLE_DEPARTMENT, WHOLE_SCHOOL} || NamesProgram(s, program))
  {
    BracketedSplits(s, name, closing);
    assert Trimmed([EXCEPT] + s) && IsScope([EXCEPT] + s);
    BracketedSplits([EXCEPT] + s, name, closing);
    assert ([EXCEPT] + s)[1..] == s;
    TrimIsTrimmed(s);
    assert Strip(name, program) == Some(name);
  }

  // ---- what a department list means ---------------------------------------------------

  /** A department as it stands in a list. */
  predicate IsPart(part: string) {
    part != "" && Trimmed(part) && NamesDepartment(part) && forall c :: c in part ==> !IsSeparator(c)
  }

  lemma {:induction false} PartLenStops(part: string, rest: string)
    requires (forall c :: c in part ==> !IsSeparator(c)) && (rest == "" || IsSeparator(rest[0]))
    ensures PartLen(part + rest) == |part|
    decreases |part|
  {
    if part != "" {
      assert part[0] in part && (part + rest)[1..] == part[1..] + rest;
      assert forall c :: c in part[1..] ==> c in part;
      PartLenStops(part[1..], rest);
    } else {
      assert part + rest == rest;
    }
  }

  lemma FirstDepartment(part: string, rest: string)
    requires IsPart(part) && (rest == "" || IsSeparator(rest[0]))
    ensures Departments(part + rest) == [part] + Departments(rest)
  {
    var s := part + rest;
    PartLenStops(part, rest);
    TrimIsTrimmed(part);
    assert s[..|part|] == part && s[|part|..] == rest && part[0] in part && s[0] == part[0];
  }

  /** A list printed with any of the three separators reads back as its departments. */
  lemma {:induction false} ListReadsBack(parts: seq<string>, sep: char)
    requires sep in {'、', '，', ','} && forall part :: part in parts ==> IsPart(part)
    ensures Departments(Join(parts, [sep])) == parts
    decreases |parts|
  {
    if |parts| == 1 {
      assert parts[0] in parts && parts[0] + "" == parts[0];
      FirstDepartment(parts[0], "");
      assert parts == [parts[0]];
    } else if |parts| > 1 {
      assert parts[0] in parts;
      var rest := Join(parts[1..], [sep]);
      FirstDepartment(parts[0], [sep] + rest);
      assert ([sep] + rest)[1..] == rest;
      assert Join(parts, [sep]) == parts[0] + ([sep] + rest);
      ListReadsBack(parts[1..], sep);
      assert parts == [parts[0]] + parts[1..];
    }
  }

  lemma {:induction false} ListShape(parts: seq<string>, sep: char, closing: char)
    requires parts != [] && sep in {'、', '，', ','} && IsClosing(closing)
    requires forall part :: part in parts ==> IsPart(part) && closing !in part
    ensures var s := Join(parts, [sep]); s != "" && Trimmed(s) && closing !in s && parts[0] != "" && parts[0] <= s
    decreases |parts|
  {
    assert parts[0] in parts;
    if |parts| > 1 {
      ListShape(parts[1..], sep, closing);
    }
  }

  /** The text without its white space. */
  function Squeezed(s: string): string {
    if s == "" then "" else (if IsSpace(s[0]) then "" else [s[0]]) + Squeezed(s[1..])
  }

  lemma {:induction false} SqueezedConcat(a: string, b: string)
    ensures Squeezed(a + b) == Squeezed(a) + Squeezed(b)
    decreases |a|
  {
    if a == "" {
      assert a + b == b;
    } else {
      assert (a + b)[1..] == a[1..] + b;
      SqueezedConcat(a[1..], b);
    }
  }

  lemma {:induction false} SqueezedBlank(s: string)
    requires Blank(s)
    ensures Squeezed(s) == ""
    decreases |s|
  {
    if s != "" {
      assert s[0] in s && forall c :: c in s[1..] ==> c in s;
      SqueezedBlank(s[1..]);
    }
  }

  lemma {:induction false} SqueezedWord(w: string)
    requires forall i :: 0 <= i < |w| ==> !IsSpace(w[i])
    ensures Squeezed(w) == w
    decreases |w|
  {
    if w != "" {
      SqueezedWord(w[1..]);
      assert w == [w[0]] + w[1..];
    }
  }

  lemma JoinedFirst(word: string, rest: seq<string>)
    ensures Join([word] + rest, "") == word + Join(rest, "")
  {
    if rest != [] {
      assert ([word] + rest)[1..] == rest;
    }
  }

  lemma {:induction false} FieldsSqueeze(s: string)
    ensures Join(Fields(s), "") == Squeezed(s)
    decreases |s|
  {
    if s != "" {
      if IsSpace(s[0]) {
        FieldsSqueeze(s[1..]);
      } else {
        var n := WordLen(s);
        JoinedFirst(s[..n], Fields(s[n..]));
        FieldsSqueeze(s[n..]);
        SqueezedWord(s[..n]);
        SqueezedConcat(s[..n], s[n..]);
        assert s[..n] + s[n..] == s;
      }
    }
  }

  /** What departments and programs are compared as. */
  lemma CompactIsSqueezed(value: string)
    ensures Compact(value) == Squeezed(value)
  {
    var a, b := TrimCuts(value);
    FieldsSqueeze(Trim(value));
    SqueezedConcat(a + Trim(value), b);
    SqueezedConcat(a, Trim(value));
    SqueezedBlank(a);
    SqueezedBlank(b);
  }

  /** The program's name holds one of the departments, white space aside. */
  ghost predicate NamesOneOf(parts: seq<string>, program: string) {
    exists part :: part in parts && Squeezed(part) != "" && StandsIn(Squeezed(part), Squeezed(program))
  }

  lemma NamesProgramByParts(scope: string, program: string)
    ensures NamesProgram(scope, program) <==> NamesOneOf(Departments(scope), program)
  {
    forall part | part in Departments(scope)
      ensures Compact(part) != "" && Contains(Compact(program), Compact(part))
        <==> Squeezed(part) != "" && StandsIn(Squeezed(part), Squeezed(program))
    {
      CompactIsSqueezed(part);
      CompactIsSqueezed(program);
      ContainsMeans(Compact(program), Compact(part));
    }
  }

  /** Names a department: something with 系 or 學程 in it, or 組 at its end. */
  lemma DepartmentsAre(part: string)
    ensures NamesDepartment(part) <==>
      StandsIn("系", part) || StandsIn("學程", part) || exists a: string :: part == a + "組"
  {
    ContainsMeans(part, "系");
    ContainsMeans(part, "學程");
    if HasSuffix(part, "組") {
      assert part == part[..|part| - 1] + "組";
    }
  }

  /**
   An event marked for a list of departments is kept by exactly the programs
   whose name holds one of them, white space aside; one that excepts them by
   exactly the others.
   */
  lemma ListedDepartmentsKeep(parts: seq<string>, sep: char, name: string, program: string, closing: char)
    requires parts != [] && sep in {'、', '，', ','} && IsClosing(closing)
    requires forall part :: part in parts ==> IsPart(part) && closing !in part
    requires Trimmed(name) && SplitLeading(name).None?
    ensures !("除" <= parts[0]) && Join(parts, [sep]) !in {"全系", "全校"} ==>
      Strip(Bracketed(Join(parts, [sep]), name, closing), program) ==
        if NamesOneOf(parts, program) then Some(name) else None
    ensures Strip(Bracketed("除" + Join(parts, [sep]), name, closing), program) ==
      if NamesOneOf(parts, program) then None else Some(name)
  {
    var s := Join(parts, [sep]);
    ListShape(parts, sep, closing);
    ListReadsBack(parts, sep);
    NamesProgramByParts(s, program);
    TrimIsTrimmed(s);
    assert Strip(name, program) == Some(name);
    assert parts[0] in parts && parts[0][0] == s[0];
    if !("除" <= parts[0]) && s !in {"全系", "全校"} {
      BracketedSplits(s, name, closing);
    }
    var excepting := "除" + s;
    assert excepting[0] == EXCEPT && excepting[1..] == s && Trimmed(excepting) && closing !in excepting;
    assert excepting != WHOLE_DEPARTMENT && excepting != WHOLE_SCHOOL;
    BracketedSplits(excepting, name, closing);
  }

  /** An event for 全系 or 全校 is kept by every program. */
  lemma WholeIsForAll(s: string, name: string, program: string, closing: char)
    requires s in {"全系", "全校"} && IsClosing(closing) && Trimmed(name) && SplitLeading(name).None?
    ensures Strip(Bracketed(s, name, closing), program) == Some(name)
  {
    BracketedSplits(s, name, closing);
    assert Strip(name, program) == Some(name);
  }

  lemma UnnamedIsNoScope(s: string)
    requires Trimmed(s) && s !in {"全系", "全校"}
    requires !(exists rest: string :: s == "除" + rest) && forall c :: c in s ==> !IsSeparator(c)
    requires !StandsIn("系", s) && !StandsIn("學程", s) && !(exists a: string :: s == a + "組")
    ensures !IsScope(s)
  {
    DepartmentsAre(s);
    if s != "" {
      PartLenStops(s, "");
      assert s + "" == s && s[|s|..] == "" && s[..|s|] == s && s[0] in s;
      TrimIsTrimmed(s);
      assert Departments(s) == [s];
      assert s == [s[0]] + s[1..];
    }
  }

  lemma UnscopedStays(s: string, name: string, closing: char)
    requires IsClosing(closing) && Trimmed(s) && closing !in s && !IsScope(s) && Trimmed(name)
    ensures SplitLeading(Bracketed(s, name, closing)).None?
  {
    BracketedIsTrimmed(s, name, closing);
    TrimIsTrimmed(Bracketed(s, name, closing));
    IndexOfFirst(s, closing, name);
    assert (s + [closing] + name)[..|s|] == s;
    TrimIsTrimmed(s);
  }

  /** A note in brackets that names no department stays part of the name, whatever the program. */
  lemma OtherNotesStay(s: string, name: string, program: string, closing: char)
    requires IsClosing(closing) && Trimmed(s) && closing !in s && s !in {"全系", "全校"} && Trimmed(name)
    requires !(exists rest: string :: s == "除" + rest) && forall c :: c in s ==> !IsSeparator(c)
    requires !StandsIn("系", s) && !StandsIn("學程", s) && !(exists a: string :: s == a + "組")
    ensures Strip(Bracketed(s, name, closing), program) == Some(Bracketed(s, name, closing))
  {
    UnnamedIsNoScope(s);
    UnscopedStays(s, name, closing);
  }
}
