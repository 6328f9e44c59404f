/** Program identifiers and source locators of `admissions/model.go`. */
module Identifiers {
  import opened Wrappers
  import opened Text

  datatype Identifier = Identifier(year: int, school: string, program: string)

  datatype Error = InvalidIdentifier | InvalidProgram

  /** codePattern: three ASCII digits. */
  predicate IsThreeDigits(s: string) {
    |s| == 3 && forall i :: 0 <= i < 3 ==> IsDigit(s[i])
  }

  predicate ValidCode(s: string) {
    IsThreeDigits(s) && s != "000"
  }

  predicate Valid(id: Identifier) {
    100 <= id.year <= 999 && ValidCode(id.school) && ValidCode(id.program)
  }

  /** "%03d-%s-%s" */
  function Print(id: Identifier): string
    requires 0 <= id.year <= 999
  {
    PadDigits(id.year, 3) + "-" + id.school + "-" + id.program
  }

  function Parse(raw: string): Result<Identifier, Error> {
    var parts := SplitOn(raw, '-');
    if |parts| != 3 || ByteLen(parts[0]) != 3 || !ValidCode(parts[1]) || !ValidCode(parts[2])
    then Err(InvalidIdentifier)
    else
      var year := Atoi(parts[0]);
      if year.None? || year.value < 100 || year.value > 999 then Err(InvalidIdentifier)
      else Ok(Identifier(year.value, parts[1], parts[2]))
  }

  lemma DigitsHaveNoDash(s: string)
    requires forall i :: 0 <= i < |s| ==> IsDigit(s[i])
    ensures '-' !in s
  {
  }

  lemma PowersOfTen()
    ensures Pow10(1) == 10 && Pow10(2) == 100 && Pow10(3) == 1000
  {
  }

  lemma JoinThree(a: string, b: string, c: string)
    ensures Join([a, b, c], "-") == a + "-" + b + "-" + c
  {
    assert [b, c][1..] == [c] && Join([c], "-") == c;
    assert [a, b, c][1..] == [b, c] && Join([b, c], "-") == b + "-" + c;
    assert Join([a, b, c], "-") == a + "-" + (b + "-" + c);
  }

  lemma PrintSplits(id: Identifier)
    requires Valid(id)
    ensures SplitOn(Print(id), '-') == [PadDigits(id.year, 3), id.school, id.program]
  {
    var parts := [PadDigits(id.year, 3), id.school, id.program];
    DigitsHaveNoDash(parts[0]);
    DigitsHaveNoDash(parts[1]);
    DigitsHaveNoDash(parts[2]);
    SplitJoin(parts, '-');
    JoinThree(parts[0], parts[1], parts[2]);
  }

  /** Year, school and program in three digits each, with dashes between. */
  lemma PrintedIs(id: Identifier)
    requires Valid(id)
    ensures var s := Print(id);
      |s| == 11 && s[3] == '-' && s[7] == '-' && s[4..7] == id.school && s[8..] == id.program
      && AllDigits(s[..3]) && DigitsValue(s[..3]) == id.year
  {
    PowersOfTen();
    PadDigitsValue(id.year, 3);
    assert Print(id)[..3] == PadDigits(id.year, 3);
  }

  /** Every valid identifier reads back from its printed form. */
  lemma ParsePrint(id: Identifier)
    requires Valid(id)
    ensures Parse(Print(id)) == Ok(id)
  {
    PrintSplits(id);
    PowersOfTen();
    PadDigitsValue(id.year, 3);
    DigitBytes(PadDigits(id.year, 3));
  }

  /** Three bytes that Atoi reads as at least 100 leave no room for a sign. */
  lemma YearIsThreeDigits(s: string)
    requires ByteLen(s) == 3 && Atoi(s).Some? && Atoi(s).value >= 100
    ensures IsThreeDigits(s) && PadDigits(Atoi(s).value, 3) == s && Atoi(s).value <= 999
  {
    PowersOfTen();
    if AllDigits(s) {
      PadDigitsOfValue(s);
      DigitBytes(s);
    } else {
      PadDigitsOfValue(s[1..]);
      assert |s[1..]| <= 2;
      PowersUpToTwo(|s[1..]|);
      assert false;
    }
  }

  lemma PowersUpToTwo(width: nat)
    requires width <= 2
    ensures Pow10(width) <= 100
  {
  }

  lemma {:induction false} DigitBytes(s: string)
    requires forall i :: 0 <= i < |s| ==> IsDigit(s[i])
    ensures ByteLen(s) == |s|
    decreases |s|
  {
    if s != "" {
      assert IsDigit(s[0]);
      forall i | 0 <= i < |s[1..]| ensures IsDigit(s[1..][i]) {
        assert IsDigit(s[i + 1]);
      }
      DigitBytes(s[1..]);
    }
  }

  /** Every accepted text is the printed form of what it was read as. */
  lemma PrintParse(raw: string)
    requires Parse(raw).Ok?
    ensures Valid(Parse(raw).value) && Print(Parse(raw).value) == raw
  {
    var parts := SplitOn(raw, '-');
    YearIsThreeDigits(parts[0]);
    JoinSplit(raw, '-');
    assert parts == [parts[0], parts[1], parts[2]];
    JoinThree(parts[0], parts[1], parts[2]);
  }

  const MISSING := "-"

  function SourceLocator(school: string, page: Option<int>): Result<string, Error> {
    if !ValidCode(school) then Err(InvalidProgram)
    else if page.None? then Ok(MISSING)
    else if page.value < 1 || page.value > 999 then Err(InvalidProgram)
    else Ok(school + "-" + PadDigits(page.value, 3))
  }

  /** "-" without a page, and otherwise the school and the page in three digits. */
  lemma LocatorIs(school: string, page: Option<int>)
    ensures SourceLocator(school, page).Ok?
      <==> |school| == 3 && AllDigits(school) && school != "000" && (page.Some? ==> 1 <= page.value <= 999)
    ensures SourceLocator(school, page).Ok? ==> var s := SourceLocator(school, page).value;
      if page.None? then s == "-"
      else |s| == 7 && s[..4] == school + "-" && AllDigits(s[4..]) && DigitsValue(s[4..]) == page.value
  {
    PowersOfTen();
    if SourceLocator(school, page).Ok? && page.Some? {
      PadDigitsValue(page.value, 3);
      assert SourceLocator(school, page).value[4..] == PadDigits(page.value, 3);
    }
  }

  /** What Program.Validate asks of a locator. */
  predicate LocatorFits(locator: string, school: string) {
    locator == MISSING ||
    var parts := SplitOn(locator, '-');
    |parts| == 2 && parts[0] == school && IsThreeDigits(parts[1])
  }

  /** Every locator that can be derived is accepted for its own school. */
  lemma DerivedLocatorFits(school: string, page: Option<int>)
    requires SourceLocator(school, page).Ok?
    ensures LocatorFits(SourceLocator(school, page).value, school)
    ensures Trim(SourceLocator(school, page).value) != ""
  {
  }
}
