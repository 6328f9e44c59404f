/**
 Validating and materialising a program input (`admissions/model.go`). Both
 normalise first, and normalising writes through the caller's exam-item slice,
 so the second call always sees items the first has already rewritten.
 */
module ProgramInputs {
  import opened Wrappers
  import opened Text
  import opened ExamItems
  import opened TimelineScope
  import Identifiers

  /** The source-URL rule and Go's date and time parsers. */
  datatype Checks = Checks(officialUrl: string -> bool, date: string -> bool, time: string -> bool)

  /** `texts` stands for the free-text fields, `urls` for the three addresses, `deadlines` for the two dates. */
  datatype Input = Input(
    year: int, school: string, program: string, name: string, quota: int,
    texts: seq<string>, urls: seq<string>, deadlines: seq<string>, page: Option<int>, events: seq<Event>)

  datatype Program = Program(
    year: int, identifier: string, school: string, schoolName: string, program: string, name: string, quota: int,
    texts: seq<string>, urls: seq<string>, deadlines: seq<string>, locator: string,
    items: seq<ExamItem>, events: seq<Event>)

  // ---- normalising ------------------------------------------------------------------

  function Dash(value: string): string {
    if Trim(value) == "" then Identifiers.MISSING else Trim(value)
  }

  function Dashed(values: seq<string>): (r: seq<string>)
    ensures |r| == |values|
  {
    seq(|values|, i requires 0 <= i < |values| => Dash(values[i]))
  }

  datatype Page = NoPage | PageNumber(n: nat) | BadPage

  /** parseExamItemPage. */
  function ParsePage(value: string): Page {
    var trimmed := Trim(value);
    if trimmed == "" || trimmed == Identifiers.MISSING then NoPage
    else
      match Atoi(trimmed)
      case None => BadPage
      case Some(n) => if 1 <= n <= 999 then PageNumber(n) else BadPage
  }

  function CleanItem(item: ExamItem): ExamItem {
    var page := Dash(item.sourcePage);
    item.(name := Trim(item.name), stage := Dash(item.stage), description := Dash(item.description),
          sourcePage := if ParsePage(page).PageNumber? then Itoa(ParsePage(page).n) else page)
  }

  function CleanItems(items: seq<ExamItem>): (r: seq<ExamItem>)
    ensures |r| == |items|
  {
    seq(|items|, i requires 0 <= i < |items| => CleanItem(items[i]))
  }

  function NormalizedItems(items: seq<ExamItem>): seq<ExamItem> {
    Reordered(CleanItems(items))
  }

  function CleanEvent(e: Event): Event {
    e.(name := Trim(e.name), startDate := Dash(e.startDate), startTime := Dash(e.startTime),
       endDate := Dash(e.endDate), endTime := Dash(e.endTime), notes := Dash(e.notes))
  }

  function CleanEvents(events: seq<Event>): (r: seq<Event>)
    ensures |r| == |events|
  {
    seq(|events|, i requires 0 <= i < |events| => CleanEvent(events[i]))
  }

  function Numbered(events: seq<Event>): (r: seq<Event>)
    ensures |r| == |events|
  {
    seq(|events|, i requires 0 <= i < |events| => events[i].(sortOrder := i + 1))
  }

  function NormalizedInput(input: Input): Input {
    var name := Trim(input.name);
    input.(school := Trim(input.school), program := Trim(input.program), name := name,
           texts := Dashed(input.texts), urls := Dashed(input.urls), deadlines := Dashed(input.deadlines),
           events := Numbered(Kept(CleanEvents(input.events), name)))
  }

  // ---- validating -------------------------------------------------------------------

  predicate ValidItem(item: ExamItem) {
    && Trim(item.name) != "" && |item.name| <= 500 && item.sortOrder >= 1
    && |item.description| <= 10000 && |item.sourcePage| <= 16 && |item.stage| <= 100
    && (item.weightPercent.Some? ==> 0.0 <= item.weightPercent.value <= 100.0)
    && (item.multiplier.Some? ==> item.multiplier.value >= 0.0)
    && !ParsePage(item.sourcePage).BadPage?
  }

  predicate ValidItems(items: seq<ExamItem>) {
    && 0 < |items| <= 100
    && (forall i :: 0 <= i < |items| ==> ValidItem(items[i]))
    && (forall a, b :: 0 <= a < b < |items| ==> items[a].sortOrder != items[b].sortOrder)
  }

  predicate ValidEvent(c: Checks, e: Event) {
    && Trim(e.name) != "" && |e.name| <= 500 && e.sortOrder >= 1 && |e.notes| <= 2000
    && (e.startDate == Identifiers.MISSING || c.date(e.startDate))
      && (e.endDate == Identifiers.MISSING || c.date(e.endDate))
    && (e.startTime == Identifiers.MISSING || c.time(e.startTime))
      && (e.endTime == Identifiers.MISSING || c.time(e.endTime))
  }

  predicate ValidEvents(c: Checks, events: seq<Event>) {
    && |events| <= 100
    && (forall i :: 0 <= i < |events| ==> ValidEvent(c, events[i]))
    && (forall a, b :: 0 <= a < b < |events| ==> events[a].sortOrder != events[b].sortOrder)
  }

  predicate ValidDeadlines(c: Checks, deadlines: seq<string>) {
    forall i :: 0 <= i < |deadlines| ==> deadlines[i] == Identifiers.MISSING || c.date(deadlines[i])
  }

  /** ProgramInput.Validate, on the input and the items as they were handed in. */
  predicate AcceptsInput(c: Checks, raw: Input, rawItems: seq<ExamItem>) {
    var input := NormalizedInput(raw);
    && Identifiers.Valid(Identifiers.Identifier(input.year, input.school, input.program))
    && Trim(input.name) != "" && |input.name| <= 500 && input.quota >= 0
    && (forall i :: 0 <= i < |input.urls| ==> c.officialUrl(input.urls[i]) && |input.urls[i]| <= 10000)
    && (forall i :: 0 <= i < |input.texts| ==> |input.texts[i]| <= 10000)
    && ValidDeadlines(c, input.deadlines)
    && (input.page.Some? ==> 1 <= input.page.value <= 999)
    && ValidItems(NormalizedItems(rawItems))
    && ValidEvents(c, input.events)
  }

  /** Program.Validate. */
  predicate AcceptsProgram(c: Checks, p: Program) {
    var id := Identifiers.Parse(p.identifier);
    && id == Ok(Identifiers.Identifier(p.year, p.school, p.program))
    && Trim(p.schoolName) != "" && Trim(p.name) != "" && p.quota >= 0
    && (forall i :: 0 <= i < |p.urls| ==> c.officialUrl(p.urls[i]) && Trim(p.urls[i]) != "")
    && (forall i :: 0 <= i < |p.texts| ==> Trim(p.texts[i]) != "")
    && (forall i :: 0 <= i < |p.deadlines| ==> Trim(p.deadlines[i]) != "")
    && ValidDeadlines(c, p.deadlines)
    && Trim(p.locator) != "" && Identifiers.LocatorFits(p.locator, p.school)
    && ValidItems(p.items) && ValidEvents(c, p.events)
  }

  /** materialize: None wherever the source returns an error. */
  function Materialized(c: Checks, raw: Input, rawItems: seq<ExamItem>, schoolName: string): Option<Program> {
    var input := NormalizedInput(raw);
    var id := Identifiers.Identifier(input.year, input.school, input.program);
    if !Identifiers.Valid(id) then None
    else
      match Identifiers.SourceLocator(input.school, input.page)
      case Err(_) => None
      case Ok(locator) =>
        var p := ProgramOf(input, locator, Trim(schoolName), NormalizedItems(rawItems));
        if AcceptsProgram(c, p) then Some(p) else None
  }

  function ProgramOf(input: Input, locator: string, schoolName: string, items: seq<ExamItem>): Program
    requires 100 <= input.year <= 999
  {
    Program(input.year, Identifiers.Print(Identifiers.Identifier(input.year, input.school, input.program)),
            input.school, schoolName, input.program, input.name, input.quota, input.texts, input.urls,
            input.deadlines, locator, items, input.events)
  }

  // ---- normalising again keeps items valid ---------------------------------------------

  lemma DashShape(value: string)
    ensures Trim(Dash(value)) == Dash(value) != "" && |Dash(value)| <= if |value| == 0 then 1 else |value|
  {
    TrimIsTrimmed(value);
    TrimIsTrimmed(Identifiers.MISSING);
  }

  lemma PageNumberShort(n: nat)
    requires 1 <= n <= 999
    ensures |Itoa(n)| <= 3 && ParsePage(Itoa(n)) == PageNumber(n)
  {
    assert n < 10 || n < 100 || n / 10 < 100;
    assert |Itoa(n / 10)| <= 2 by {
      assert n / 10 < 10 || n / 10 / 10 < 10;
    }
    var s := Itoa(n);
    assert IsDigit(s[0]) && IsDigit(s[|s| - 1]);
    TrimIsTrimmed(s);
    AtoiOfItoa(n);
  }

  lemma CleanItemStaysValid(item: ExamItem)
    requires ValidItem(item)
    ensures ValidItem(CleanItem(item)) && CleanItem(item).sortOrder == item.sortOrder
  {
    TrimIsTrimmed(item.name);
    TrimIsTrimmed(Trim(item.name));
    DashShape(item.stage);
    DashShape(item.description);
    DashShape(item.sourcePage);
    TrimIsTrimmed(item.sourcePage);
    var page := Dash(item.sourcePage);
    if ParsePage(page).PageNumber? {
      PageNumberShort(ParsePage(page).n);
    }
  }

  lemma ReorderedStaysValid(items: seq<ExamItem>)
    requires ValidItems(items)
    ensures ValidItems(Reordered(items))
  {
    var orders := OrdersOf(items);
    OuterRearranges(MarksOf(items), orders, 0);
    var r := Outer(MarksOf(items), orders, 0);
    assert NoRepeats(orders) && AtLeastOne(orders);
    forall i | 0 <= i < |items| ensures ValidItem(Reordered(items)[i]) {
      assert Reordered(items)[i] == items[i].(sortOrder := r[i]) && r[i] >= 1;
    }
  }

  /** Valid items stay valid however often they are normalised again. */
  lemma NormalizedStaysValid(items: seq<ExamItem>)
    requires ValidItems(items)
    ensures ValidItems(NormalizedItems(items))
  {
    forall i | 0 <= i < |items|
      ensures ValidItem(CleanItem(items[i])) && CleanItem(items[i]).sortOrder == items[i].sortOrder
    {
      CleanItemStaysValid(items[i]);
    }
    ReorderedStaysValid(CleanItems(items));
  }

  function NormalizedTimes(items: seq<ExamItem>, times: nat): seq<ExamItem> {
    if times == 0 then items else NormalizedItems(NormalizedTimes(items, times - 1))
  }

  lemma {:induction false} NormalizedTimesValid(items: seq<ExamItem>, times: nat)
    requires ValidItems(NormalizedItems(items)) && times > 0
    ensures ValidItems(NormalizedTimes(items, times))
    decreases times
  {
    if times > 1 {
      NormalizedTimesValid(items, times - 1);
      NormalizedStaysValid(NormalizedTimes(items, times - 1));
    } else {
      assert NormalizedTimes(items, 0) == items;
    }
  }

  /** The fields of an accepted input pass the program's own checks. */
  lemma AcceptedFieldsPass(c: Checks, raw: Input, rawItems: seq<ExamItem>, locator: string, schoolName: string,
                           items: seq<ExamItem>)
    requires AcceptsInput(c, raw, rawItems) && ValidItems(items) && Trim(schoolName) != ""
    requires Identifiers.SourceLocator(NormalizedInput(raw).school, NormalizedInput(raw).page) == Ok(locator)
    ensures AcceptsProgram(c, ProgramOf(NormalizedInput(raw), locator, schoolName, items))
  {
    var input := NormalizedInput(raw);
    Identifiers.ParsePrint(Identifiers.Identifier(input.year, input.school, input.program));
    Identifiers.DerivedLocatorFits(input.school, input.page);
    DashedNotBlank(raw.texts);
    DashedNotBlank(raw.urls);
    DashedNotBlank(raw.deadlines);
  }

  /**
   An input that Validate accepts materialises under every non-blank school
   name, however often its shared items have been normalised in between.
   */
  lemma AcceptedInputMaterializes(c: Checks, raw: Input, rawItems: seq<ExamItem>, schoolName: string, times: nat)
    requires AcceptsInput(c, raw, rawItems) && Trim(schoolName) != ""
    ensures Materialized(c, raw, NormalizedTimes(rawItems, times), schoolName).Some?
  {
    var input := NormalizedInput(raw);
    NormalizedTimesValid(rawItems, times + 1);
    TrimIsTrimmed(schoolName);
    TrimIsTrimmed(Trim(schoolName));
    var locator := Identifiers.SourceLocator(input.school, input.page);
    assert locator.Ok?;
    AcceptedFieldsPass(c, raw, rawItems, locator.value, Trim(schoolName), NormalizedTimes(rawItems, times + 1));
  }

  lemma DashedNotBlank(values: seq<string>)
    ensures forall i :: 0 <= i < |values| ==> Trim(Dashed(values)[i]) != ""
  {
    forall i | 0 <= i < |values| ensures Trim(Dashed(values)[i]) != "" {
      DashShape(values[i]);
    }
  }

  // ---- what is asked and what comes out, in terms of what was handed in ------------------------

  lemma BlankTrims(value: string)
    ensures Trim(value) == "" <==> Blank(value)
  {
    var a, b := TrimCuts(value);
    if Trim(value) != "" {
      assert value[|a|] == Trim(value)[0];
      assert value[|a|] in value;
    }
  }

  /** Blank text becomes "-", other text loses the white space around it. */
  ghost function OrDash(value: string): string {
    if Blank(value) then "-" else Trim(value)
  }

  lemma DashIs(value: string)
    ensures Dash(value) == OrDash(value)
  {
    BlankTrims(value);
  }

  ghost predicate IsCode(s: string) {
    |s| == 3 && AllDigits(s) && s != "000"
  }

  /** An item as the caller may hand it in. */
  ghost predicate ItemFits(item: ExamItem) {
    && !Blank(item.name) && |Trim(item.name)| <= 500 && item.sortOrder >= 1
    && |OrDash(item.description)| <= 10000 && |OrDash(item.stage)| <= 100
    && |CleanItem(item).sourcePage| <= 16 && ParsePage(CleanItem(item).sourcePage) != BadPage
    && (item.weightPercent.Some? ==> 0.0 <= item.weightPercent.value <= 100.0)
    && (item.multiplier.Some? ==> item.multiplier.value >= 0.0)
  }

  ghost predicate ItemsFit(items: seq<ExamItem>) {
    && 1 <= |items| <= 100 && (forall i :: 0 <= i < |items| ==> ItemFits(items[i]))
    && forall a, b :: 0 <= a < b < |items| ==> items[a].sortOrder != items[b].sortOrder
  }

  lemma ItemFitsIsValid(item: ExamItem)
    ensures ItemFits(item) <==> ValidItem(CleanItem(item))
  {
    BlankTrims(item.name);
    TrimIsTrimmed(item.name);
    TrimIsTrimmed(Trim(item.name));
    DashIs(item.stage);
    DashIs(item.description);
  }

  lemma CleanedFits(items: seq<ExamItem>, i: nat)
    requires i < |items|
    ensures ItemFits(items[i]) <==> ValidItem(CleanItems(items)[i])
    ensures OrdersOf(CleanItems(items)) == OrdersOf(items)
  {
    ItemFitsIsValid(items[i]);
  }

  /** An item is as valid with another order, if that is positive too. */
  lemma ValidWithOrder(item: ExamItem, order: int)
    requires order >= 1
    ensures ValidItem(item.(sortOrder := order)) ==> (ValidItem(item) <==> item.sortOrder >= 1)
  {
  }

  lemma ItemsFitAreValid(items: seq<ExamItem>)
    requires ItemsFit(items)
    ensures ValidItems(NormalizedItems(items))
  {
    forall i | 0 <= i < |items|
      ensures ValidItem(CleanItems(items)[i]) && CleanItems(items)[i].sortOrder == items[i].sortOrder
    {
      CleanedFits(items, i);
    }
    ReorderedStaysValid(CleanItems(items));
  }

  lemma NormalizedRearranges(items: seq<ExamItem>)
    ensures multiset(OrdersOf(NormalizedItems(items))) == multiset(OrdersOf(items))
    ensures forall i :: 0 <= i < |items| ==>
      NormalizedItems(items)[i] == CleanItem(items[i]).(sortOrder := NormalizedItems(items)[i].sortOrder)
  {
    assert OrdersOf(CleanItems(items)) == OrdersOf(items);
    OuterRearranges(MarksOf(CleanItems(items)), OrdersOf(CleanItems(items)), 0);
  }

  lemma StaysPositive(before: seq<int>, after: seq<int>, i: nat)
    requires multiset(after) == multiset(before) && AtLeastOne(after) && i < |before|
    ensures before[i] >= 1
  {
    assert before[i] in multiset(before) && before[i] in multiset(after);
    var k :| 0 <= k < |after| && after[k] == before[i];
  }

  lemma ValidItemsFit(items: seq<ExamItem>)
    requires ValidItems(NormalizedItems(items))
    ensures ItemsFit(items)
  {
    NormalizedRearranges(items);
    var before, after := OrdersOf(items), OrdersOf(NormalizedItems(items));
    assert NoRepeats(after) && AtLeastOne(after);
    NoRepeatsByMultiset(before, after);
    forall i | 0 <= i < |items| ensures ItemFits(items[i]) {
      StaysPositive(before, after, i);
      ValidWithOrder(CleanItem(items[i]), NormalizedItems(items)[i].sortOrder);
      ItemFitsIsValid(items[i]);
    }
    forall a, b | 0 <= a < b < |items| ensures items[a].sortOrder != items[b].sortOrder {
      assert before[a] != before[b];
    }
  }

  lemma ItemsFitIsValid(items: seq<ExamItem>)
    ensures ItemsFit(items) <==> ValidItems(NormalizedItems(items))
  {
    if ItemsFit(items) {
      ItemsFitAreValid(items);
    }
    if ValidItems(NormalizedItems(items)) {
      ValidItemsFit(items);
    }
  }

  ghost predicate EventFits(c: Checks, e: Event) {
    && !Blank(e.name) && |e.name| <= 500 && |e.notes| <= 2000
    && (e.startDate == "-" || c.date(e.startDate)) && (e.endDate == "-" || c.date(e.endDate))
    && (e.startTime == "-" || c.time(e.startTime)) && (e.endTime == "-" || c.time(e.endTime))
  }

  /** An input as the caller may hand it in; of its events, those the program keeps are looked at. */
  ghost predicate InputFits(c: Checks, raw: Input, rawItems: seq<ExamItem>) {
    && 100 <= raw.year <= 999 && IsCode(Trim(raw.school)) && IsCode(Trim(raw.program))
    && !Blank(raw.name) && |Trim(raw.name)| <= 500 && raw.quota >= 0
    && (forall i :: 0 <= i < |raw.urls| ==> c.officialUrl(OrDash(raw.urls[i])) && |OrDash(raw.urls[i])| <= 10000)
    && (forall i :: 0 <= i < |raw.texts| ==> |OrDash(raw.texts[i])| <= 10000)
    && (forall i :: 0 <= i < |raw.deadlines| ==> OrDash(raw.deadlines[i]) == "-" || c.date(OrDash(raw.deadlines[i])))
    && (raw.page.Some? ==> 1 <= raw.page.value <= 999)
    && ItemsFit(rawItems)
    && |NormalizedInput(raw).events| <= 100
    && forall i :: 0 <= i < |NormalizedInput(raw).events| ==> EventFits(c, NormalizedInput(raw).events[i])
  }

  lemma EventsFitIsValid(c: Checks, raw: Input)
    ensures var events := NormalizedInput(raw).events;
      ValidEvents(c, events) <==> |events| <= 100 && forall i :: 0 <= i < |events| ==> EventFits(c, events[i])
  {
    var events := NormalizedInput(raw).events;
    forall i | 0 <= i < |events| ensures ValidEvent(c, events[i]) <==> EventFits(c, events[i]) {
      BlankTrims(events[i].name);
      assert events[i].sortOrder == i + 1;
    }
  }

  /** Validate accepts exactly such inputs. */
  lemma AcceptsExactly(c: Checks, raw: Input, rawItems: seq<ExamItem>)
    ensures AcceptsInput(c, raw, rawItems) <==> InputFits(c, raw, rawItems)
  {
    BlankTrims(raw.name);
    TrimIsTrimmed(raw.name);
    ItemsFitIsValid(rawItems);
    EventsFitIsValid(c, raw);
    DashedIs(raw.urls);
    DashedIs(raw.texts);
    DashedIs(raw.deadlines);
  }

  lemma DashedIs(values: seq<string>)
    ensures forall i :: 0 <= i < |values| ==> Dashed(values)[i] == OrDash(values[i])
  {
    forall i | 0 <= i < |values| ensures Dashed(values)[i] == OrDash(values[i]) {
      DashIs(values[i]);
    }
  }

  /** The program has the input's fields, trimmed and dashed, the school's name, and its identifier and locator. */
  lemma MaterializedFields(c: Checks, raw: Input, rawItems: seq<ExamItem>, schoolName: string, p: Program)
    requires Materialized(c, raw, rawItems, schoolName) == Some(p)
    ensures p.year == raw.year && p.quota == raw.quota && p.school == Trim(raw.school)
    ensures p.program == Trim(raw.program) && p.name == Trim(raw.name) && p.schoolName == Trim(schoolName)
    ensures !Blank(raw.name) && !Blank(schoolName) && p.quota >= 0
    ensures Identifiers.Parse(p.identifier) == Ok(Identifiers.Identifier(raw.year, Trim(raw.school), Trim(raw.program)))
    ensures Identifiers.SourceLocator(Trim(raw.school), raw.page) == Ok(p.locator)
    ensures |p.texts| == |raw.texts| && forall i :: 0 <= i < |p.texts| ==> p.texts[i] == OrDash(raw.texts[i])
    ensures |p.urls| == |raw.urls| && forall i :: 0 <= i < |p.urls| ==> p.urls[i] == OrDash(raw.urls[i])
    ensures |p.deadlines| == |raw.deadlines|
    ensures forall i :: 0 <= i < |p.deadlines| ==> p.deadlines[i] == OrDash(raw.deadlines[i])
    ensures p.items == NormalizedItems(rawItems) && ItemsFit(rawItems)
    ensures forall i :: 0 <= i < |p.urls| ==> c.officialUrl(p.urls[i])
    ensures forall i :: 0 <= i < |p.deadlines| ==> p.deadlines[i] == "-" || c.date(p.deadlines[i])
    ensures p.events == NormalizedInput(raw).events && |p.events| <= 100
    ensures forall i :: 0 <= i < |p.events| ==> EventFits(c, p.events[i])
  {
    EventsFitIsValid(c, raw);
    BlankTrims(raw.name);
    TrimIsTrimmed(raw.name);
    BlankTrims(schoolName);
    TrimIsTrimmed(schoolName);
    ItemsFitIsValid(rawItems);
    DashedIs(raw.urls);
    DashedIs(raw.texts);
    DashedIs(raw.deadlines);
  }

  /** Its items are the caller's, each in its place, cleaned, with the orders handed round. */
  lemma NormalizedItemIs(items: seq<ExamItem>, i: nat)
    requires i < |items|
    ensures var r := NormalizedItems(items)[i];
      r.name == Trim(items[i].name) && r.stage == OrDash(items[i].stage)
      && r.description == OrDash(items[i].description) && r.weightPercent == items[i].weightPercent
      && r.multiplier == items[i].multiplier
    ensures var page, r := ParsePage(OrDash(items[i].sourcePage)), NormalizedItems(items)[i];
      r.sourcePage == if page.PageNumber? then Itoa(page.n) else OrDash(items[i].sourcePage)
    ensures multiset(OrdersOf(NormalizedItems(items))) == multiset(OrdersOf(items))
  {
    OnlyOrdersMove(CleanItems(items), i);
    DashIs(items[i].stage);
    DashIs(items[i].description);
    DashIs(items[i].sourcePage);
    assert OrdersOf(CleanItems(items)) == OrdersOf(items);
  }

  /** Its events are those the program keeps, in order, numbered from 1, cleaned and without their scopes. */
  lemma NormalizedEventIs(raw: Input, k: nat)
    requires k < |NormalizedInput(raw).events|
    ensures var at := KeptAt(CleanEvents(raw.events), Trim(raw.name));
      && |at| == |NormalizedInput(raw).events| && at[k] < |raw.events|
      && var e, was := NormalizedInput(raw).events[k], raw.events[at[k]];
         && Strip(Trim(was.name), Trim(raw.name)) == Some(e.name) && e.sortOrder == k + 1
         && e.startDate == OrDash(was.startDate) && e.startTime == OrDash(was.startTime)
         && e.endDate == OrDash(was.endDate) && e.endTime == OrDash(was.endTime) && e.notes == OrDash(was.notes)
  {
    var cleaned, name := CleanEvents(raw.events), Trim(raw.name);
    KeptFollows(cleaned, name);
    var was := raw.events[KeptAt(cleaned, name)[k]];
    DashIs(was.startDate);
    DashIs(was.startTime);
    DashIs(was.endDate);
    DashIs(was.endTime);
    DashIs(was.notes);
  }

  // ---- the calls, writing through the slice -----------------------------------------------

  method CleanEach(items: array<ExamItem>)
    modifies items
    ensures items[..] == CleanItems(old(items[..]))
  {
    ghost var was := items[..];
    for i := 0 to items.Length
      invariant forall k :: i <= k < items.Length ==> items[k] == was[k]
      invariant forall k :: 0 <= k < i ==> items[k] == CleanItems(was)[k]
    {
      items[i] := CleanItem(items[i]);
      assert items[i] == CleanItems(was)[i];
    }
  }

  method NormalizeItems(items: array<ExamItem>)
    modifies items
    ensures items[..] == NormalizedItems(old(items[..]))
  {
    CleanEach(items);
    OrderReviewsFirst(items);
  }

  method Validate(c: Checks, raw: Input, items: array<ExamItem>) returns (ok: bool)
    modifies items
    ensures ok <==> AcceptsInput(c, raw, old(items[..]))
    ensures items[..] == NormalizedItems(old(items[..]))
  {
    NormalizeItems(items);
    var input := NormalizedInput(raw);
    if !Identifiers.Valid(Identifiers.Identifier(input.year, input.school, input.program)) {
      return false;
    }
    if Trim(input.name) == "" || |input.name| > 500 || input.quota < 0
       || (input.page.Some? && !(1 <= input.page.value <= 999)) {
      return false;
    }
    ok := (forall i :: 0 <= i < |input.urls| ==> c.officialUrl(input.urls[i]) && |input.urls[i]| <= 10000)
       && (forall i :: 0 <= i < |input.texts| ==> |input.texts[i]| <= 10000)
       && ValidDeadlines(c, input.deadlines) && ValidItems(items[..]) && ValidEvents(c, input.events);
  }

  method Materialize(c: Checks, raw: Input, items: array<ExamItem>, schoolName: string)
    returns (program: Option<Program>)
    modifies items
    ensures program == Materialized(c, raw, old(items[..]), schoolName)
    ensures items[..] == NormalizedItems(old(items[..]))
  {
    NormalizeItems(items);
    var input := NormalizedInput(raw);
    var id := Identifiers.Identifier(input.year, input.school, input.program);
    if !Identifiers.Valid(id) {
      return None;
    }
    var locator := Identifiers.SourceLocator(input.school, input.page);
    if locator.Err? {
      return None;
    }
    var p := ProgramOf(input, locator.value, Trim(schoolName), items[..]);
    return if AcceptsProgram(c, p) then Some(p) else None;
  }

  /** The repository's order of calls on one slice: what Validate lets through, Materialize never refuses. */
  method ValidateThenMaterialize(c: Checks, raw: Input, items: array<ExamItem>, schoolName: string)
    returns (ok: bool, program: Option<Program>)
    modifies items
    ensures ok && Trim(schoolName) != "" ==> program.Some?
  {
    ghost var rawItems := items[..];
    ok := Validate(c, raw, items);
    assert NormalizedTimes(rawItems, 0) == rawItems;
    assert items[..] == NormalizedTimes(rawItems, 1);
    if AcceptsInput(c, raw, rawItems) && Trim(schoolName) != "" {
      AcceptedInputMaterializes(c, raw, rawItems, schoolName, 1);
    }
    program := Materialize(c, raw, items, schoolName);
  }
}
