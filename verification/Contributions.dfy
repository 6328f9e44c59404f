/**
 The people-count text of `admissions/contribution_model.go`: rows are printed
 one per line as "<program>系 <n> 人", read back from that or from older
 comma-separated lines, and normalised by reading and printing again.
 */
module Contributions {
  import opened Wrappers
  import opened Text

  const MAX_ROWS := 100
  const MAX_NAME_BYTES := 240
  const MAX_TEXT_BYTES := 16000
  const MAX_PEOPLE := 1_000_000_000
  const COMMA := ','
  const WIDE_COMMA := '，'

  datatype Row = Row(name: string, people: int)

  datatype Error = InvalidContribution

  // ---- printing -----------------------------------------------------------------

  predicate Acceptable(row: Row) {
    var name := Trim(row.name);
    && name != "" && ByteLen(name) <= MAX_NAME_BYTES && '\r' !in name && '\n' !in name
    && 0 <= row.people <= MAX_PEOPLE
  }

  /** The program name as printed, with 系 appended where it is missing. */
  function PrintedName(name: string): string {
    if HasSuffix(name, "系") then name else name + " 系"
  }

  function Line(row: Row): string
    requires Acceptable(row)
  {
    PrintedName(Trim(row.name)) + " " + Itoa(row.people) + " 人"
  }

  function Lines(rows: seq<Row>): (lines: seq<string>)
    requires forall r :: r in rows ==> Acceptable(r)
    ensures |lines| == |rows|
  {
    seq(|rows|, i requires 0 <= i < |rows| => assert rows[i] in rows; Line(rows[i]))
  }

  function Format(rows: seq<Row>): Result<string, Error> {
    if 0 < |rows| <= MAX_ROWS && forall r :: r in rows ==> Acceptable(r) then
      var text := Join(Lines(rows), "\n");
      if ByteLen(text) > MAX_TEXT_BYTES then Err(InvalidContribution) else Ok(text)
    else Err(InvalidContribution)
  }

  method FormatContributionRows(rows: seq<Row>) returns (r: Result<string, Error>)
    ensures r == Format(rows)
  {
    if |rows| == 0 || |rows| > MAX_ROWS {
      return Err(InvalidContribution);
    }
    var lines: seq<string> := [];
    for i := 0 to |rows|
      invariant forall r :: r in rows[..i] ==> Acceptable(r)
      invariant lines == Lines(rows[..i])
    {
      var name := Trim(rows[i].name);
      if name == "" || ByteLen(name) > MAX_NAME_BYTES || '\r' in name || '\n' in name
         || rows[i].people < 0 || rows[i].people > MAX_PEOPLE {
        assert rows[i] in rows && !Acceptable(rows[i]);
        return Err(InvalidContribution);
      }
      LinesOneMore(rows[..i], rows[i]);
      assert rows[..i + 1] == rows[..i] + [rows[i]];
      if HasSuffix(name, "系") {
        lines := lines + [name + " " + Itoa(rows[i].people) + " 人"];
      } else {
        lines := lines + [name + " 系" + " " + Itoa(rows[i].people) + " 人"];
      }
    }
    assert rows[..|rows|] == rows;
    var text := Join(lines, "\n");
    if ByteLen(text) > MAX_TEXT_BYTES {
      return Err(InvalidContribution);
    }
    return Ok(text);
  }

  // ---- reading --------------------------------------------------------------------

  /** Name and count of a non-blank line: split at the first comma, else at the first wide comma, else "... n 人". */
  function SplitLine(line: string): Option<(string, string)> {
    match IndexOf(line, COMMA)
    case Some(i) => Some((line[..i], line[i + 1..]))
    case None =>
      match IndexOf(line, WIDE_COMMA)
      case Some(i) => Some((line[..i], line[i + 1..]))
      case None =>
        var fields := Fields(line);
        var n := |fields|;
        if n < 3 || fields[n - 1] != "人" then None else Some((Join(fields[..n - 2], " "), fields[n - 2]))
  }

  /** No row for a blank line, one row for a good line, nothing for a bad one. */
  function ParseLine(raw: string): Option<seq<Row>> {
    var line := Trim(raw);
    if line == "" then Some([])
    else
      match SplitLine(line)
      case None => None
      case Some((name, count)) => ReadRow(name, count)
  }

  function ReadRow(name: string, count: string): Option<seq<Row>> {
    match Atoi(Trim(count))
    case None => None
    case Some(n) => if 0 <= n <= MAX_PEOPLE then Some([Row(Trim(name), n)]) else None
  }

  function ParseLines(lines: seq<string>): Option<seq<Row>> {
    if lines == [] then Some([])
    else Appended(ParseLines(lines[..|lines| - 1]), ParseLine(lines[|lines| - 1]))
  }

  function Parse(raw: string): Result<seq<Row>, Error> {
    if raw == "" || ByteLen(raw) > MAX_TEXT_BYTES then Err(InvalidContribution)
    else
      match ParseLines(SplitOn(raw, '\n'))
      case None => Err(InvalidContribution)
      case Some(rows) => if 0 < |rows| <= MAX_ROWS then Ok(rows) else Err(InvalidContribution)
  }

  function Appended(rows: Option<seq<Row>>, more: Option<seq<Row>>): Option<seq<Row>> {
    if rows.Some? && more.Some? then Some(rows.value + more.value) else None
  }

  lemma ParseLinesStep(lines: seq<string>, n: nat)
    requires n < |lines|
    ensures ParseLines(lines[..n + 1]) == Appended(ParseLines(lines[..n]), ParseLine(lines[n]))
  {
    var head := lines[..n + 1];
    assert head[..n] == lines[..n] && head[n] == lines[n];
  }

  lemma {:induction false} ParseLinesPrefix(lines: seq<string>, n: nat)
    requires n <= |lines|
    ensures ParseLines(lines[..n]).None? ==> ParseLines(lines).None?
    ensures ParseLines(lines).Some? ==>
      ParseLines(lines[..n]).Some? && |ParseLines(lines[..n]).value| <= |ParseLines(lines).value|
    decreases |lines| - n
  {
    if n < |lines| {
      ParseLinesStep(lines, n);
      ParseLinesPrefix(lines, n + 1);
    } else {
      assert lines[..n] == lines;
    }
  }

  method ParseContributionRowsText(raw: string) returns (r: Result<seq<Row>, Error>)
    ensures r == Parse(raw)
  {
    if raw == "" || ByteLen(raw) > MAX_TEXT_BYTES {
      return Err(InvalidContribution);
    }
    var lines := SplitOn(raw, '\n');
    var rows: seq<Row> := [];
    for i := 0 to |lines|
      invariant ParseLines(lines[..i]) == Some(rows) && |rows| <= MAX_ROWS
    {
      ParseLinesStep(lines, i);
      ParseLinesPrefix(lines, i + 1);
      var line := Trim(lines[i]);
      if line == "" {
        assert rows + [] == rows;
        continue;
      }
      var cut := SplitLine(line);
      if cut.None? {
        return Err(InvalidContribution);
      }
      var people := Atoi(Trim(cut.value.1));
      if people.None? || people.value < 0 || people.value > MAX_PEOPLE {
        return Err(InvalidContribution);
      }
      rows := rows + [Row(Trim(cut.value.0), people.value)];
      if |rows| > MAX_ROWS {
        return Err(InvalidContribution);
      }
    }
    assert lines[..|lines|] == lines;
    if |rows| == 0 {
      return Err(InvalidContribution);
    }
    return Ok(rows);
  }

  function Normalize(raw: string): string {
    match Parse(raw)
    case Err(_) => raw
    case Ok(rows) =>
      match Format(rows)
      case Err(_) => raw
      case Ok(text) => text
  }

  // ---- reading back one printed line ------------------------------------------------

  ghost predicate HasComma(name: string) {
    COMMA in name || WIDE_COMMA in name
  }

  /** What a printed row reads back as. */
  function Reread(row: Row): Row {
    Row(SingleSpaced(PrintedName(Trim(row.name))), row.people)
  }

  lemma PrintedNameShape(name: string)
    requires name != "" && Trimmed(name)
    ensures var p := PrintedName(name); p != "" && Trimmed(p) && p[|p| - 1] == '系' && p[0] == name[0]
    ensures forall c :: c in PrintedName(name) ==> c in name || c == ' ' || c == '系'
    ensures forall c :: c in name ==> c in PrintedName(name)
  {
  }

  lemma LineShape(row: Row)
    requires Acceptable(row)
    ensures Trim(Line(row)) == Line(row) && Line(row) != "" && Line(row)[|Line(row)| - 1] == '人'
  {
    var name := Trim(row.name);
    TrimIsTrimmed(row.name);
    PrintedNameShape(name);
    assert Line(row)[0] == name[0];
    TrimIsTrimmed(Line(row));
  }

  lemma CutLeavesNoCount(line: string, i: nat)
    requires i < |line| - 1 && line[|line| - 1] == '人'
    ensures Atoi(Trim(line[i + 1..])) == None
  {
    var count := line[i + 1..];
    assert count[|count| - 1] == '人';
    TrimKeepsLast(count);
    AtoiEndsInDigit(Trim(count));
  }

  /** A comma in the name is found first and leaves a count that ends in 人. */
  lemma LineWithComma(row: Row)
    requires Acceptable(row) && HasComma(Trim(row.name))
    ensures ParseLine(Line(row)) == None
  {
    var line := Line(row);
    TrimIsTrimmed(row.name);
    LineShape(row);
    PrintedNameShape(Trim(row.name));
    var c := if COMMA in line then COMMA else WIDE_COMMA;
    assert c in line && (c == WIDE_COMMA ==> COMMA !in line);
    var i := IndexOf(line, c).value;
    assert SplitLine(line) == Some((line[..i], line[i + 1..]));
    CutLeavesNoCount(line, i);
  }

  lemma LineFields(row: Row)
    requires Acceptable(row)
    ensures Fields(Line(row)) == Fields(PrintedName(Trim(row.name))) + [Itoa(row.people)] + ["人"]
  {
    var p, n := PrintedName(Trim(row.name)), Itoa(row.people);
    assert Line(row) == p + [' '] + (n + [' '] + "人");
    FieldsAcrossSpace(p, ' ', n + [' '] + "人");
    FieldsAcrossSpace(n, ' ', "人");
    FieldsOfWord(n);
    FieldsOfWord("人");
  }

  lemma LineLacks(row: Row, c: char)
    requires Acceptable(row) && c !in Trim(row.name) && !IsDigit(c) && c != ' ' && c != '系' && c != '人'
    ensures c !in Line(row)
  {
  }

  lemma PlainLineSplits(row: Row)
    requires Acceptable(row) && !HasComma(Trim(row.name))
    ensures SplitLine(Line(row)) == Some((SingleSpaced(PrintedName(Trim(row.name))), Itoa(row.people)))
  {
    var line, p := Line(row), PrintedName(Trim(row.name));
    LineLacks(row, COMMA);
    LineLacks(row, WIDE_COMMA);
    assert IndexOf(line, COMMA).None? && IndexOf(line, WIDE_COMMA).None?;
    LineFields(row);
    TrimIsTrimmed(row.name);
    PrintedNameShape(Trim(row.name));
    FieldsLast(p);
    var fields := Fields(line);
    assert fields[..|fields| - 2] == Fields(p) && fields[|fields| - 2] == Itoa(row.people);
  }

  lemma ReadsTrimmedName(name: string, n: nat)
    requires Trimmed(name) && n <= MAX_PEOPLE
    ensures ReadRow(name, Itoa(n)) == Some([Row(name, n)])
  {
    TrimIsTrimmed(name);
    ItoaIsTrimmed(n);
    AtoiOfItoa(n);
  }

  lemma ReadsPlainRow(row: Row)
    requires Acceptable(row)
    ensures ReadRow(SingleSpaced(PrintedName(Trim(row.name))), Itoa(row.people)) == Some([Reread(row)])
  {
    TrimIsTrimmed(row.name);
    PrintedNameShape(Trim(row.name));
    SingleSpacedEnds(PrintedName(Trim(row.name)));
    ReadsTrimmedName(SingleSpaced(PrintedName(Trim(row.name))), row.people);
  }

  lemma LineWithoutComma(row: Row)
    requires Acceptable(row) && !HasComma(Trim(row.name))
    ensures ParseLine(Line(row)) == Some([Reread(row)])
  {
    LineShape(row);
    PlainLineSplits(row);
    ReadsPlainRow(row);
  }

  lemma ItoaIsTrimmed(n: nat)
    ensures Trim(Itoa(n)) == Itoa(n)
  {
  }

  // ---- what the limits and the two forms are ---------------------------------------------

  /** A row that can be printed. */
  ghost predicate RowFits(row: Row) {
    var name := Trim(row.name);
    name != "" && ByteLen(name) <= 240 && '\r' !in name && '\n' !in name && 0 <= row.people <= 1_000_000_000
  }

  /** Rows are printed exactly when there are 1 to 100 of them, each fits, and the text has at most 16000 bytes. */
  lemma FormatAcceptsExactly(rows: seq<Row>)
    ensures Format(rows).Ok? ==>
      1 <= |rows| <= 100 && (forall r :: r in rows ==> RowFits(r)) && ByteLen(Format(rows).value) <= 16000
    ensures 1 <= |rows| <= 100 && (forall r :: r in rows ==> RowFits(r)) ==>
      (Format(rows).Err? <==> ByteLen(Join(Lines(rows), "\n")) > 16000)
  {
  }

  /** A printed line: the trimmed name, 系 where it does not end in it already, the count and 人. */
  lemma PrintedLineIs(row: Row)
    requires Acceptable(row)
    ensures Line(row) ==
      Trim(row.name) + (if exists a: string :: Trim(row.name) == a + "系" then "" else " 系")
      + " " + Itoa(row.people) + " 人"
  {
    var name := Trim(row.name);
    if HasSuffix(name, "系") {
      assert name == name[..|name| - 1] + "系";
    }
  }

  /** A row of the older form, "<name>,<count>", with a full-width comma if `wide`. */
  datatype OldRow = OldRow(name: string, wide: bool, people: nat) {
    ghost predicate Valid() {
      ',' !in name && (wide ==> '，' !in name) && '\n' !in name && people <= 1_000_000_000
    }

    function Line(): string {
      name + [if wide then '，' else ','] + Itoa(people)
    }
  }

  lemma {:induction false} TrimLeftAppends(a: string, b: string)
    requires b != "" && !IsSpace(b[0])
    ensures TrimLeft(a + b) == TrimLeft(a) + b
    decreases |a|
  {
    if a == "" {
      assert a + b == b;
    } else if IsSpace(a[0]) {
      assert (a + b)[1..] == a[1..] + b;
      TrimLeftAppends(a[1..], b);
    }
  }

  lemma {:induction false} TrimLeftChars(s: string, c: char)
    requires c !in s
    ensures c !in TrimLeft(s)
    decreases |s|
  {
    if s != "" && IsSpace(s[0]) {
      TrimLeftChars(s[1..], c);
    }
  }

  lemma {:induction false} TrimLeftTwice(s: string)
    ensures TrimLeft(TrimLeft(s)) == TrimLeft(s)
    decreases |s|
  {
    if s != "" && IsSpace(s[0]) {
      TrimLeftTwice(s[1..]);
    }
  }

  lemma OldLineTrims(row: OldRow)
    ensures var mark := if row.wide then '，' else ',';
      Trim(row.Line()) == TrimLeft(row.name) + [mark] + Itoa(row.people)
  {
    var mark, count := if row.wide then '，' else ',', Itoa(row.people);
    assert row.Line() == row.name + ([mark] + count);
    TrimLeftAppends(row.name, [mark] + count);
    var line := TrimLeft(row.name) + [mark] + count;
    assert TrimLeft(row.Line()) == line && IsDigit(line[|line| - 1]);
  }

  lemma MarkSplits(name: string, wide: bool, count: string)
    requires ',' !in name && (wide ==> '，' !in name && ',' !in count)
    ensures SplitLine(name + [if wide then '，' else ','] + count) == Some((name, count))
  {
    var mark := if wide then '，' else ',';
    var line := name + [mark] + count;
    IndexOfFirst(name, mark, count);
    assert line[..|name|] == name && line[|name| + 1..] == count;
    if wide {
      assert ',' !in line;
      assert IndexOf(line, ',').None?;
    }
  }

  /** Such a line reads as its trimmed name and its count. */
  lemma OldLineReads(row: OldRow)
    requires row.Valid()
    ensures ParseLine(row.Line()) == Some([Row(Trim(row.name), row.people)])
  {
    OldLineTrims(row);
    TrimLeftChars(row.name, ',');
    if row.wide {
      TrimLeftChars(row.name, '，');
    }
    MarkSplits(TrimLeft(row.name), row.wide, Itoa(row.people));
    TrimLeftTwice(row.name);
    ItoaIsTrimmed(row.people);
    AtoiOfItoa(row.people);
  }

  function OldLines(rows: seq<OldRow>): (lines: seq<string>)
    ensures |lines| == |rows|
  {
    seq(|rows|, i requires 0 <= i < |rows| => rows[i].Line())
  }

  function OldRows(rows: seq<OldRow>): (r: seq<Row>)
    ensures |r| == |rows|
  {
    seq(|rows|, i requires 0 <= i < |rows| => Row(Trim(rows[i].name), rows[i].people))
  }

  lemma OldOneMore(rows: seq<OldRow>, last: OldRow)
    ensures OldLines(rows + [last]) == OldLines(rows) + [last.Line()]
    ensures OldRows(rows + [last]) == OldRows(rows) + [Row(Trim(last.name), last.people)]
  {
  }

  lemma {:induction false} OldLinesRead(rows: seq<OldRow>)
    requires forall r :: r in rows ==> r.Valid()
    ensures ParseLines(OldLines(rows)) == Some(OldRows(rows))
    decreases |rows|
  {
    if rows != [] {
      var head, last := rows[..|rows| - 1], rows[|rows| - 1];
      assert last in rows && rows == head + [last];
      OldLinesRead(head);
      OldOneMore(head, last);
      ParseLinesSnoc(OldLines(head), last.Line());
      OldLineReads(last);
    }
  }

  /** A text of up to a hundred lines of the older form, of whichever comma, reads as its rows in order. */
  lemma OldTextReads(rows: seq<OldRow>)
    requires 1 <= |rows| <= 100 && forall r :: r in rows ==> r.Valid()
    requires ByteLen(Join(OldLines(rows), "\n")) <= 16000
    ensures Parse(Join(OldLines(rows), "\n")) == Ok(OldRows(rows))
  {
    forall line | line in OldLines(rows) ensures '\n' !in line && line != "" {
      var i :| 0 <= i < |rows| && OldLines(rows)[i] == line;
      assert rows[i] in rows;
    }
    SplitJoin(OldLines(rows), '\n');
    OldLinesRead(rows);
    assert OldLines(rows)[0] in OldLines(rows);
    assert Join(OldLines(rows), "\n") != "";
  }

  lemma {:induction false} ParsedPeopleFit(lines: seq<string>)
    requires ParseLines(lines).Some?
    ensures forall r :: r in ParseLines(lines).value ==> 0 <= r.people <= 1_000_000_000 && Trimmed(r.name)
    decreases |lines|
  {
    if lines != [] {
      ParsedPeopleFit(lines[..|lines| - 1]);
      var line := Trim(lines[|lines| - 1]);
      if line != "" {
        TrimIsTrimmed(SplitLine(line).value.0);
      }
    }
  }

  /** A line with no comma of either width that is not "... <count> 人" cannot be read. */
  ghost predicate Unreadable(line: string) {
    && !Blank(line) && ',' !in line && '，' !in line
    && (|Fields(Trim(line))| < 3 || Fields(Trim(line))[|Fields(Trim(line))| - 1] != "人")
  }

  lemma {:induction false} TrimChars(s: string, c: char)
    requires c !in s
    ensures c !in Trim(s)
  {
    var a, b := TrimCuts(s);
    assert forall x :: x in Trim(s) ==> x in s;
  }

  lemma NotBlankTrims(s: string)
    requires Trim(s) == ""
    ensures Blank(s)
  {
    var a, b := TrimCuts(s);
  }

  lemma {:induction false} UnreadableStops(lines: seq<string>, i: nat)
    requires i < |lines| && Unreadable(lines[i])
    ensures ParseLines(lines).None?
    decreases |lines|
  {
    if i == |lines| - 1 {
      TrimChars(lines[i], ',');
      TrimChars(lines[i], '，');
      if Trim(lines[i]) == "" {
        NotBlankTrims(lines[i]);
      }
    } else {
      UnreadableStops(lines[..|lines| - 1], i);
    }
  }

  /**
   What is read has 1 to 100 rows with counts in range and trimmed names, from a
   text of at most 16000 bytes none of whose lines is unreadable.
   */
  lemma ReadIsWithinBounds(raw: string)
    requires Parse(raw).Ok?
    ensures 1 <= |Parse(raw).value| <= 100 && raw != "" && ByteLen(raw) <= 16000
    ensures forall r :: r in Parse(raw).value ==> 0 <= r.people <= 1_000_000_000 && Trimmed(r.name)
    ensures forall line :: line in SplitOn(raw, '\n') ==> !Unreadable(line)
  {
    var lines := SplitOn(raw, '\n');
    ParsedPeopleFit(lines);
    forall line | line in lines ensures !Unreadable(line) {
      var i :| 0 <= i < |lines| && lines[i] == line;
      if Unreadable(line) {
        UnreadableStops(lines, i);
      }
    }
  }

  /** A text that cannot be read, or whose rows cannot be printed again, stays as it is. */
  lemma UnreadableTextStays(raw: string)
    ensures Parse(raw).Err? ==> Normalize(raw) == raw
    ensures Parse(raw).Ok? ==>
      Normalize(raw) == if Format(Parse(raw).value).Ok? then Format(Parse(raw).value).value else raw
  {
  }

  // ---- round trip -------------------------------------------------------------------------

  lemma LinesHaveNoBreak(rows: seq<Row>, line: string)
    requires (forall r :: r in rows ==> Acceptable(r)) && line in Lines(rows)
    ensures '\n' !in line
  {
    var i :| 0 <= i < |rows| && Lines(rows)[i] == line;
    assert rows[i] in rows;
    LineLacks(rows[i], '\n');
  }

  function Rereads(rows: seq<Row>): (r: seq<Row>)
    ensures |r| == |rows|
  {
    seq(|rows|, i requires 0 <= i < |rows| => Reread(rows[i]))
  }

  ghost predicate SomeComma(rows: seq<Row>) {
    exists r :: r in rows && HasComma(Trim(r.name))
  }

  lemma LinesOneMore(rows: seq<Row>, last: Row)
    requires Acceptable(last) && forall r :: r in rows ==> Acceptable(r)
    ensures forall r :: r in rows + [last] ==> Acceptable(r)
    ensures Lines(rows + [last]) == Lines(rows) + [Line(last)]
  {
  }

  lemma ParseLinesSnoc(lines: seq<string>, line: string)
    ensures ParseLines(lines + [line]) == Appended(ParseLines(lines), ParseLine(line))
  {
  }

  lemma ParseOneMore(rows: seq<Row>, last: Row)
    requires Acceptable(last) && forall r :: r in rows ==> Acceptable(r)
    ensures forall r :: r in rows + [last] ==> Acceptable(r)
    ensures ParseLines(Lines(rows + [last])) == Appended(ParseLines(Lines(rows)), ParseLine(Line(last)))
  {
    LinesOneMore(rows, last);
    ParseLinesSnoc(Lines(rows), Line(last));
  }

  lemma CommaOneMore(rows: seq<Row>, last: Row)
    ensures SomeComma(rows + [last]) <==> SomeComma(rows) || HasComma(Trim(last.name))
  {
  }

  lemma RereadsOneMore(rows: seq<Row>, last: Row)
    ensures Rereads(rows + [last]) == Rereads(rows) + [Reread(last)]
  {
  }

  lemma LineReadsBack(row: Row)
    requires Acceptable(row)
    ensures ParseLine(Line(row)) == if HasComma(Trim(row.name)) then None else Some([Reread(row)])
  {
    if HasComma(Trim(row.name)) {
      LineWithComma(row);
    } else {
      LineWithoutComma(row);
    }
  }

  lemma {:induction false} ParsePrintedLines(rows: seq<Row>)
    requires forall r :: r in rows ==> Acceptable(r)
    ensures ParseLines(Lines(rows)) == if SomeComma(rows) then None else Some(Rereads(rows))
    decreases |rows|
  {
    if rows != [] {
      var n := |rows| - 1;
      var head, last := rows[..n], rows[n];
      assert last in rows && rows == head + [last];
      ParsePrintedLines(head);
      ParseOneMore(head, last);
      LineReadsBack(last);
      CommaOneMore(head, last);
      RereadsOneMore(head, last);
    }
  }

  /**
   Printed text reads back, exactly when no name holds a comma of either
   width, as the same rows in order, 系 appended where it was missing and
   white space collapsed.
   */
  lemma PrintedTextReadsBack(rows: seq<Row>)
    requires Format(rows).Ok?
    ensures Parse(Format(rows).value) ==
      if SomeComma(rows) then Err(InvalidContribution) else Ok(Rereads(rows))
  {
    var text := Format(rows).value;
    forall line | line in Lines(rows) ensures '\n' !in line {
      LinesHaveNoBreak(rows, line);
    }
    SplitJoin(Lines(rows), '\n');
    ParsePrintedLines(rows);
    assert rows[0] in rows;
    LineShape(rows[0]);
    assert Lines(rows)[0] == Line(rows[0]) && text != "";
  }

  /** Names that are already single-spaced come back with nothing but 系 added. */
  lemma SingleSpacedNamesComeBack(row: Row)
    requires row.name != "" && SingleSpaced(row.name) == row.name
    ensures Reread(row) == Row(PrintedName(row.name), row.people)
  {
    FieldsAreWords(row.name);
    JoinEnds(Fields(row.name));
    TrimIsTrimmed(row.name);
    if !HasSuffix(row.name, "系") {
      assert PrintedName(row.name) == row.name + [' '] + "系";
      FieldsAcrossSpace(row.name, ' ', "系");
      FieldsOfWord("系");
      JoinSnoc(Fields(row.name), "系");
    }
  }

  // ---- normalising --------------------------------------------------------------------

  /** A name as it is after having been printed and read once. */
  ghost predicate Normal(name: string) {
    name != "" && Trimmed(name) && name[|name| - 1] == '系' && SingleSpaced(name) == name && !HasComma(name)
  }

  lemma RereadIsNormal(row: Row)
    requires Acceptable(row) && !HasComma(Trim(row.name))
    ensures Normal(Reread(row).name)
  {
    var p := PrintedName(Trim(row.name));
    TrimIsTrimmed(row.name);
    PrintedNameShape(Trim(row.name));
    SingleSpacedEnds(p);
    SingleSpacedIsStable(p);
    if HasComma(SingleSpaced(p)) {
      SingleSpacedChars(p, if COMMA in SingleSpaced(p) then COMMA else WIDE_COMMA);
    }
  }

  lemma NormalNamesStay(row: Row)
    requires Normal(row.name)
    ensures Reread(row) == row && Trim(row.name) == row.name
  {
  }

  /** Text printed from rows with normal names is a fixpoint. */
  lemma NormalTextIsFixed(rows: seq<Row>)
    requires Format(rows).Ok? && forall r :: r in rows ==> Normal(r.name)
    ensures Normalize(Format(rows).value) == Format(rows).value
  {
    forall r | r in rows ensures !HasComma(Trim(r.name)) && Reread(r) == r {
      NormalNamesStay(r);
    }
    PrintedTextReadsBack(rows);
    assert Rereads(rows) == rows;
  }

  /** Normalising any text is stable from the second application on. */
  lemma NormalizeTwiceIsStable(raw: string)
    ensures Normalize(Normalize(Normalize(raw))) == Normalize(Normalize(raw))
  {
    if Parse(raw).Ok? && Format(Parse(raw).value).Ok? {
      var rows := Parse(raw).value;
      var once := Format(rows).value;
      PrintedTextReadsBack(rows);
      if Parse(once).Ok? && Format(Parse(once).value).Ok? {
        var again := Parse(once).value;
        forall r | r in again ensures Normal(r.name) {
          var i :| 0 <= i < |rows| && r == Reread(rows[i]);
          assert rows[i] in rows;
          RereadIsNormal(rows[i]);
        }
        NormalTextIsFixed(again);
      }
    }
  }

  lemma SameLineSameName(row: Row, other: Row)
    requires Acceptable(row) && Acceptable(other) && row.people == other.people && Line(row) == Line(other)
    ensures PrintedName(Trim(row.name)) == PrintedName(Trim(other.name))
  {
    var p, q := PrintedName(Trim(row.name)), PrintedName(Trim(other.name));
    var tail := " " + Itoa(row.people) + " 人";
    assert Line(row) == p + tail && Line(other) == q + tail;
    assert |p| == |q|;
    assert (p + tail)[..|p|] == p && (q + tail)[..|q|] == q;
  }

  lemma RereadPrintsItself(row: Row)
    requires Acceptable(row) && !HasComma(Trim(row.name))
    ensures PrintedName(Trim(Reread(row).name)) == Reread(row).name
  {
    RereadIsNormal(row);
    NormalNamesStay(Reread(row));
    var name := Reread(row).name;
    assert name[|name| - 1..] == "系";
  }

  ghost predicate AllSingleSpaced(rows: seq<Row>) {
    forall i :: 0 <= i < |rows| ==> SingleSpaced(PrintedName(Trim(rows[i].name))) == PrintedName(Trim(rows[i].name))
  }

  lemma SameLinesWhenSingleSpaced(rows: seq<Row>)
    requires !SomeComma(rows) && forall r :: r in rows ==> Acceptable(r)
    requires forall r :: r in Rereads(rows) ==> Acceptable(r)
    ensures Lines(Rereads(rows)) == Lines(rows) <==> AllSingleSpaced(rows)
  {
    var again := Rereads(rows);
    forall i | 0 <= i < |rows|
      ensures Lines(again)[i] == Lines(rows)[i]
        <==> SingleSpaced(PrintedName(Trim(rows[i].name))) == PrintedName(Trim(rows[i].name))
    {
      assert rows[i] in rows && again[i] in again;
      RereadPrintsItself(rows[i]);
      if Line(again[i]) == Line(rows[i]) {
        SameLineSameName(again[i], rows[i]);
      }
    }
  }

  /**
   One application is not always enough, and this is when it is: the text is
   not read again because of a comma, or a name with 系 added has outgrown the
   limit, or every printed name is already single-spaced.
   */
  lemma OnceIsEnoughExactlyWhen(raw: string)
    requires Parse(raw).Ok? && Format(Parse(raw).value).Ok?
    ensures var rows := Parse(raw).value;
      Normalize(Normalize(raw)) == Normalize(raw) <==>
        SomeComma(rows) || Format(Rereads(rows)).Err? || AllSingleSpaced(rows)
  {
    var rows := Parse(raw).value;
    PrintedTextReadsBack(rows);
    if !SomeComma(rows) && Format(Rereads(rows)).Ok? {
      SameLinesWhenSingleSpaced(rows);
      SameTextSameLines(Rereads(rows), rows);
    }
  }

  lemma SameTextSameLines(a: seq<Row>, b: seq<Row>)
    requires Format(a).Ok? && Format(b).Ok?
    ensures Format(a) == Format(b) <==> Lines(a) == Lines(b)
  {
    forall line | line in Lines(a) ensures '\n' !in line {
      LinesHaveNoBreak(a, line);
    }
    forall line | line in Lines(b) ensures '\n' !in line {
      LinesHaveNoBreak(b, line);
    }
    SplitJoin(Lines(a), '\n');
    SplitJoin(Lines(b), '\n');
  }

  // ---- conservation -------------------------------------------------------------------

  /** The count a printed line shows, whatever its name holds. */
  function ShownPeople(line: string): Option<int> {
    var fields := Fields(line);
    if |fields| < 2 then None else Atoi(fields[|fields| - 2])
  }

  function Total(rows: seq<Row>): int {
    if rows == [] then 0 else rows[0].people + Total(rows[1..])
  }

  lemma LineShowsPeople(row: Row)
    requires Acceptable(row)
    ensures ShownPeople(Line(row)) == Some(row.people)
  {
    LineFields(row);
    AtoiOfItoa(row.people);
  }

  /** Whenever normalising rewrites, line i of the result shows row i's count, and there are no other lines. */
  lemma RewriteConserves(raw: string)
    requires Parse(raw).Ok? && Format(Parse(raw).value).Ok?
    ensures var rows := Parse(raw).value; var lines := SplitOn(Normalize(raw), '\n');
      |lines| == |rows| && forall i :: 0 <= i < |rows| ==> ShownPeople(lines[i]) == Some(rows[i].people)
  {
    var rows := Parse(raw).value;
    forall line | line in Lines(rows) ensures '\n' !in line {
      LinesHaveNoBreak(rows, line);
    }
    SplitJoin(Lines(rows), '\n');
    forall i | 0 <= i < |rows| ensures ShownPeople(Lines(rows)[i]) == Some(rows[i].people) {
      assert rows[i] in rows;
      LineShowsPeople(rows[i]);
    }
  }

  lemma {:induction false} TotalByPeople(a: seq<Row>, b: seq<Row>)
    requires |a| == |b| && forall i :: 0 <= i < |a| ==> a[i].people == b[i].people
    ensures Total(a) == Total(b)
    decreases |a|
  {
    if a != [] {
      TotalByPeople(a[1..], b[1..]);
    }
  }

  /** And whenever the rewritten text is read again, it has as many rows and as many people as the original. */
  lemma RereadConserves(raw: string)
    requires Parse(raw).Ok? && Parse(Normalize(raw)).Ok?
    ensures |Parse(Normalize(raw)).value| == |Parse(raw).value|
    ensures Total(Parse(Normalize(raw)).value) == Total(Parse(raw).value)
  {
    var rows := Parse(raw).value;
    if Format(rows).Ok? {
      PrintedTextReadsBack(rows);
      TotalByPeople(rows, Parse(Normalize(raw)).value);
    }
  }
}
