/**
 The operations of Go's `strings` and `strconv` packages that the admissions
 and auth packages use, over sequences of Unicode code points.
 */
module Text {
  import opened Wrappers

  /** unicode.IsSpace. */
  predicate IsSpace(c: char) {
    || '\t' <= c <= '\r' || c == ' ' || c == '\U{0085}' || c == '\U{00A0}' || c == '\U{1680}'
    || '\U{2000}' <= c <= '\U{200A}' || c == '\U{2028}' || c == '\U{2029}' || c == '\U{202F}'
    || c == '\U{205F}' || c == '\U{3000}'
  }

  predicate IsDigit(c: char) {
    '0' <= c <= '9'
  }

  /** The code points with the Unicode property White_Space. */
  const WHITE_SPACE := {
    0x9, 0xA, 0xB, 0xC, 0xD, 0x20, 0x85, 0xA0, 0x1680, 0x2000, 0x2001, 0x2002, 0x2003, 0x2004, 0x2005, 0x2006,
    0x2007, 0x2008, 0x2009, 0x200A, 0x2028, 0x2029, 0x202F, 0x205F, 0x3000}

  lemma SpacesAreUnicode(c: char)
    ensures IsSpace(c) <==> c as int in WHITE_SPACE
  {
  }

  // ---- trimming -----------------------------------------------------------

  function TrimLeft(s: string): string {
    if s != [] && IsSpace(s[0]) then TrimLeft(s[1..]) else s
  }

  function TrimRight(s: string): string {
    if s != [] && IsSpace(s[|s| - 1]) then TrimRight(s[..|s| - 1]) else s
  }

  /** strings.TrimSpace. */
  function Trim(s: string): string {
    TrimRight(TrimLeft(s))
  }

  predicate Trimmed(s: string) {
    s == [] || (!IsSpace(s[0]) && !IsSpace(s[|s| - 1]))
  }

  lemma {:induction false} TrimRightKeepsHead(s: string)
    requires s != [] && !IsSpace(s[0])
    ensures TrimRight(s) != [] && TrimRight(s)[0] == s[0] && !IsSpace(TrimRight(s)[|TrimRight(s)| - 1])
    decreases |s|
  {
    if IsSpace(s[|s| - 1]) {
      TrimRightKeepsHead(s[..|s| - 1]);
    }
  }

  lemma {:induction false} TrimLeftHead(s: string)
    ensures TrimLeft(s) == [] || !IsSpace(TrimLeft(s)[0])
    decreases |s|
  {
    if s != [] && IsSpace(s[0]) {
      TrimLeftHead(s[1..]);
    }
  }

  lemma {:induction false} TrimShorter(s: string)
    ensures |TrimLeft(s)| <= |s| && |TrimRight(s)| <= |s|
    decreases |s|
  {
    if s != [] {
      TrimShorter(s[1..]);
      TrimShorter(s[..|s| - 1]);
    }
  }

  /** TrimSpace leaves no space at either end, never grows, and does nothing to trimmed text. */
  lemma TrimIsTrimmed(s: string)
    ensures Trimmed(Trim(s)) && |Trim(s)| <= |s|
    ensures Trimmed(s) ==> Trim(s) == s
  {
    TrimLeftHead(s);
    TrimShorter(s);
    TrimShorter(TrimLeft(s));
    if TrimLeft(s) != [] {
      TrimRightKeepsHead(TrimLeft(s));
    }
  }

  predicate Blank(s: string) {
    forall c :: c in s ==> IsSpace(c)
  }

  lemma {:induction false} TrimLeftCuts(s: string) returns (a: string)
    ensures Blank(a) && s == a + TrimLeft(s)
    decreases |s|
  {
    a := "";
    if s != [] && IsSpace(s[0]) {
      a := TrimLeftCuts(s[1..]);
      a := [s[0]] + a;
    }
  }

  lemma {:induction false} TrimRightCuts(s: string) returns (b: string)
    ensures Blank(b) && s == TrimRight(s) + b
    decreases |s|
  {
    b := "";
    if s != [] && IsSpace(s[|s| - 1]) {
      b := TrimRightCuts(s[..|s| - 1]);
      b := b + [s[|s| - 1]];
    }
  }

  /** Trimming takes white space off both ends and nothing else. */
  lemma TrimCuts(s: string) returns (a: string, b: string)
    ensures Blank(a) && Blank(b) && s == a + Trim(s) + b && Trimmed(Trim(s))
  {
    a := TrimLeftCuts(s);
    b := TrimRightCuts(TrimLeft(s));
    TrimIsTrimmed(s);
  }

  /** Trimming keeps the last code point of text that does not end in a space. */
  lemma {:induction false} TrimKeepsLast(s: string)
    requires s != [] && !IsSpace(s[|s| - 1])
    ensures Trim(s) != [] && Trim(s)[|Trim(s)| - 1] == s[|s| - 1]
    decreases |s|
  {
    if IsSpace(s[0]) {
      assert Trim(s) == Trim(s[1..]);
      TrimKeepsLast(s[1..]);
    }
  }

  // ---- searching ----------------------------------------------------------

  predicate HasSuffix(s: string, suffix: string) {
    |suffix| <= |s| && s[|s| - |suffix|..] == suffix
  }

  /** strings.Contains. */
  predicate Contains(s: string, part: string) {
    part <= s || (s != [] && Contains(s[1..], part))
  }

  lemma {:induction false} ContainsMiddle(a: string, part: string, b: string)
    ensures Contains(a + part + b, part)
    decreases |a|
  {
    if a == "" {
      assert a + part + b == part + b;
    } else {
      assert (a + part + b)[1..] == a[1..] + part + b;
      ContainsMiddle(a[1..], part, b);
    }
  }

  lemma {:induction false} ContainedWhere(s: string, part: string) returns (a: string, b: string)
    requires Contains(s, part)
    ensures s == a + part + b
    decreases |s|
  {
    if part <= s {
      a, b := "", s[|part|..];
    } else {
      a, b := ContainedWhere(s[1..], part);
      a := [s[0]] + a;
    }
  }

  /** The part stands somewhere in the text, between two others. */
  ghost predicate StandsIn(part: string, s: string) {
    exists a, b :: s == a + part + b
  }

  lemma ContainsMeans(s: string, part: string)
    ensures Contains(s, part) <==> StandsIn(part, s)
  {
    if Contains(s, part) {
      var a, b := ContainedWhere(s, part);
    }
    if a, b :| s == a + part + b {
      ContainsMiddle(a, part, b);
    }
  }

  /** strings.Index for a single code point. */
  function IndexOf(s: string, c: char): (r: Option<nat>)
    ensures r.Some? ==> r.value < |s| && s[r.value] == c && c !in s[..r.value]
    ensures r.None? ==> c !in s
  {
    if s == [] then None
    else if s[0] == c then Some(0)
    else
      match IndexOf(s[1..], c)
      case None => None
      case Some(i) => assert s[..i + 1] == [s[0]] + s[1..][..i]; Some(i + 1)
  }

  lemma {:induction false} IndexOfFirst(a: string, c: char, b: string)
    requires c !in a
    ensures IndexOf(a + [c] + b, c) == Some(|a|)
    decreases |a|
  {
    if a != [] {
      assert (a + [c] + b)[1..] == a[1..] + [c] + b;
      IndexOfFirst(a[1..], c, b);
    }
  }

  // ---- splitting and joining ----------------------------------------------

  function Join(parts: seq<string>, sep: string): string {
    if |parts| == 0 then ""
    else if |parts| == 1 then parts[0]
    else parts[0] + sep + Join(parts[1..], sep)
  }

  /** strings.Split on a single code point. */
  function SplitOn(s: string, c: char): (parts: seq<string>)
    ensures parts != []
    decreases |s|
  {
    match IndexOf(s, c)
    case None => [s]
    case Some(i) => [s[..i]] + SplitOn(s[i + 1..], c)
  }

  lemma SplitsFirst(part: string, c: char, rest: string)
    requires c !in part
    ensures SplitOn(part + [c] + rest, c) == [part] + SplitOn(rest, c)
  {
    var joined := part + [c] + rest;
    IndexOfFirst(part, c, rest);
    assert joined[..|part|] == part && joined[|part| + 1..] == rest;
  }

  lemma {:induction false} SplitJoin(parts: seq<string>, c: char)
    requires parts != [] && forall p :: p in parts ==> c !in p
    ensures SplitOn(Join(parts, [c]), c) == parts
    decreases |parts|
  {
    assert parts[0] in parts;
    if |parts| == 1 {
      assert Join(parts, [c]) == parts[0];
      assert parts == [parts[0]];
    } else {
      SplitsFirst(parts[0], c, Join(parts[1..], [c]));
      SplitJoin(parts[1..], c);
      assert parts == [parts[0]] + parts[1..];
    }
  }

  /** Joining the parts of a split gives the text back. */
  lemma {:induction false} JoinSplit(s: string, c: char)
    ensures Join(SplitOn(s, c), [c]) == s
    ensures forall p :: p in SplitOn(s, c) ==> c !in p
    decreases |s|
  {
    match IndexOf(s, c) {
      case None => assert SplitOn(s, c) == [s];
      case Some(i) =>
        var rest := SplitOn(s[i + 1..], c);
        JoinSplit(s[i + 1..], c);
        assert SplitOn(s, c) == [s[..i]] + rest;
        assert SplitOn(s, c)[1..] == rest;
        assert s == s[..i] + [c] + s[i + 1..];
    }
  }

  function WordLen(s: string): (n: nat)
    ensures n <= |s| && (forall i :: 0 <= i < n ==> !IsSpace(s[i])) && (n < |s| ==> IsSpace(s[n]))
  {
    if s == [] || IsSpace(s[0]) then 0 else 1 + WordLen(s[1..])
  }

  /** strings.Fields. */
  function Fields(s: string): seq<string>
    decreases |s|
  {
    if s == [] then []
    else if IsSpace(s[0]) then Fields(s[1..])
    else [s[..WordLen(s)]] + Fields(s[WordLen(s)..])
  }

  predicate IsWord(w: string) {
    w != [] && forall i :: 0 <= i < |w| ==> !IsSpace(w[i])
  }

  lemma {:induction false} FieldsAreWords(s: string)
    ensures forall w :: w in Fields(s) ==> IsWord(w)
    decreases |s|
  {
    if s != [] {
      if IsSpace(s[0]) {
        FieldsAreWords(s[1..]);
      } else {
        FieldsAreWords(s[WordLen(s)..]);
      }
    }
  }

  lemma {:induction false} WordLenUnique(s: string, n: nat)
    requires n <= |s| && (forall i :: 0 <= i < n ==> !IsSpace(s[i])) && (n < |s| ==> IsSpace(s[n]))
    ensures WordLen(s) == n
    decreases n
  {
  }

  lemma FieldsTakeWord(s: string, n: nat)
    requires 0 < n == WordLen(s)
    ensures n <= |s| && Fields(s) == [s[..n]] + Fields(s[n..])
  {
  }

  lemma FieldsOfWord(w: string)
    requires IsWord(w)
    ensures Fields(w) == [w]
  {
    WordLenUnique(w, |w|);
    assert w[..|w|] == w && w[|w|..] == [];
  }

  lemma WordLenBefore(a: string, c: char, b: string)
    requires IsSpace(c)
    ensures WordLen(a + [c] + b) == WordLen(a)
  {
    var s := a + [c] + b;
    var n := WordLen(a);
    assert s[n] == if n < |a| then a[n] else c;
    assert forall i :: 0 <= i < n ==> s[i] == a[i];
    WordLenUnique(s, n);
  }

  lemma FieldsTakeWordAcross(a: string, c: char, b: string)
    requires IsSpace(c) && a != [] && !IsSpace(a[0])
    ensures var n := WordLen(a);
      0 < n <= |a| && Fields(a) == [a[..n]] + Fields(a[n..])
        && Fields(a + [c] + b) == [a[..n]] + Fields(a[n..] + [c] + b)
  {
    var n, s := WordLen(a), a + [c] + b;
    WordLenBefore(a, c, b);
    FieldsTakeWord(a, n);
    FieldsTakeWord(s, n);
    assert s[..n] == a[..n] && s[n..] == a[n..] + [c] + b;
  }

  /** A white-space code point separates fields, whatever stands around it. */
  lemma {:induction false} FieldsAcrossSpace(a: string, c: char, b: string)
    requires IsSpace(c)
    ensures Fields(a + [c] + b) == Fields(a) + Fields(b)
    decreases |a|
  {
    if a == [] {
      assert (a + [c] + b)[1..] == b;
    } else if IsSpace(a[0]) {
      assert (a + [c] + b)[1..] == a[1..] + [c] + b;
      FieldsAcrossSpace(a[1..], c, b);
    } else {
      FieldsTakeWordAcross(a, c, b);
      FieldsAcrossSpace(a[WordLen(a)..], c, b);
    }
  }

  lemma {:induction false} FieldsOfJoin(words: seq<string>)
    requires forall w :: w in words ==> IsWord(w)
    ensures Fields(Join(words, " ")) == words
    decreases |words|
  {
    if |words| == 1 {
      FieldsOfWord(words[0]);
      assert words == [words[0]];
    } else if |words| > 1 {
      FieldsAcrossSpace(words[0], ' ', Join(words[1..], " "));
      FieldsOfWord(words[0]);
      FieldsOfJoin(words[1..]);
      assert words == [words[0]] + words[1..];
    }
  }

  lemma {:induction false} JoinSnoc(words: seq<string>, last: string)
    requires words != []
    ensures Join(words + [last], " ") == Join(words, " ") + " " + last
    decreases |words|
  {
    if |words| > 1 {
      assert (words + [last])[1..] == words[1..] + [last];
      JoinSnoc(words[1..], last);
    }
  }

  /** Joining words keeps their outer code points, which are no spaces. */
  lemma {:induction false} JoinEnds(words: seq<string>)
    requires words != [] && forall w :: w in words ==> IsWord(w)
    ensures var joined := Join(words, " ");
      IsWord(words[0]) && IsWord(words[|words| - 1])
      && joined != [] && Trimmed(joined) && joined[0] == words[0][0]
      && joined[|joined| - 1] == words[|words| - 1][|words[|words| - 1]| - 1]
    decreases |words|
  {
    assert IsWord(words[0]) && IsWord(words[|words| - 1]);
    if |words| > 1 {
      JoinEnds(words[1..]);
    }
  }

  lemma {:induction false} JoinChars(words: seq<string>, c: char)
    requires c != ' ' && c in Join(words, " ")
    ensures exists w :: w in words && c in w
    decreases |words|
  {
    if |words| == 1 {
      assert words[0] in words;
    } else if |words| > 1 {
      assert words[0] in words;
      if c !in words[0] {
        JoinChars(words[1..], c);
      }
    }
  }

  lemma {:induction false} FieldsChars(s: string, w: string, c: char)
    requires w in Fields(s) && c in w
    ensures c in s
    decreases |s|
  {
    if IsSpace(s[0]) {
      FieldsChars(s[1..], w, c);
    } else if w != s[..WordLen(s)] {
      FieldsTakeWord(s, WordLen(s));
      FieldsChars(s[WordLen(s)..], w, c);
    }
  }

  predicate EndsWith(fields: seq<string>, c: char) {
    fields != [] && fields[|fields| - 1] != [] && fields[|fields| - 1][|fields[|fields| - 1]| - 1] == c
  }

  /** The last field of text that does not end in a space ends as the text does. */
  lemma {:induction false} FieldsLast(s: string)
    requires s != [] && !IsSpace(s[|s| - 1])
    ensures EndsWith(Fields(s), s[|s| - 1])
    decreases |s|
  {
    if IsSpace(s[0]) {
      FieldsLast(s[1..]);
    } else {
      var n := WordLen(s);
      FieldsTakeWord(s, n);
      if n < |s| {
        var rest := s[n..];
        assert rest[|rest| - 1] == s[|s| - 1];
        FieldsLast(rest);
      } else {
        assert s[n..] == [] && s[..n] == s;
      }
    }
  }

  /** White space runs collapsed to single spaces. */
  function SingleSpaced(s: string): string {
    Join(Fields(s), " ")
  }

  lemma SingleSpacedIsStable(s: string)
    ensures SingleSpaced(SingleSpaced(s)) == SingleSpaced(s)
  {
    FieldsAreWords(s);
    FieldsOfJoin(Fields(s));
  }

  lemma SingleSpacedChars(s: string, c: char)
    requires c != ' ' && c in SingleSpaced(s)
    ensures c in s
  {
    JoinChars(Fields(s), c);
    var w :| w in Fields(s) && c in w;
    FieldsChars(s, w, c);
  }

  /** Trimmed text keeps its last code point, stays trimmed and stays non-empty. */
  lemma SingleSpacedEnds(s: string)
    requires s != [] && !IsSpace(s[|s| - 1])
    ensures var t := SingleSpaced(s); t != [] && Trimmed(t) && t[|t| - 1] == s[|s| - 1]
  {
    FieldsAreWords(s);
    FieldsLast(s);
    JoinEnds(Fields(s));
  }

  // ---- numbers ------------------------------------------------------------

  function DigitChar(d: nat): (c: char)
    requires d < 10
    ensures IsDigit(c) && c as int - '0' as int == d
  {
    ('0' as int + d) as char
  }

  /** %d of a non-negative number. */
  function Itoa(n: nat): (s: string)
    ensures s != [] && forall i :: 0 <= i < |s| ==> IsDigit(s[i])
  {
    if n < 10 then [DigitChar(n)] else Itoa(n / 10) + [DigitChar(n % 10)]
  }

  function DigitsValue(s: string): nat
    requires forall i :: 0 <= i < |s| ==> IsDigit(s[i])
  {
    if s == [] then 0
    else
      assert IsDigit(s[|s| - 1]);
      DigitsValue(s[..|s| - 1]) * 10 + (s[|s| - 1] as int - '0' as int)
  }

  predicate AllDigits(s: string) {
    s != [] && forall i :: 0 <= i < |s| ==> IsDigit(s[i])
  }

  /** strconv.Atoi, without its 64-bit bound. */
  function Atoi(s: string): Option<int> {
    if AllDigits(s) then Some(DigitsValue(s))
    else if s != [] && s[0] == '+' && AllDigits(s[1..]) then Some(DigitsValue(s[1..]))
    else if s != [] && s[0] == '-' && AllDigits(s[1..]) then Some(0 - DigitsValue(s[1..]) as int)
    else None
  }

  lemma {:induction false} DigitsOfItoa(n: nat)
    ensures DigitsValue(Itoa(n)) == n
    decreases n
  {
    if n >= 10 {
      DigitsOfItoa(n / 10);
      assert Itoa(n)[..|Itoa(n)| - 1] == Itoa(n / 10);
    }
  }

  lemma AtoiOfItoa(n: nat)
    ensures Atoi(Itoa(n)) == Some(n)
  {
    DigitsOfItoa(n);
  }

  /** Digits, or digits behind one sign, and nothing else. */
  lemma AtoiReads(s: string, digits: string)
    requires AllDigits(digits)
    ensures Atoi(digits) == Some(DigitsValue(digits)) && Atoi("+" + digits) == Some(DigitsValue(digits))
    ensures Atoi("-" + digits) == Some(0 - DigitsValue(digits))
    ensures Atoi(s).Some? ==> AllDigits(s) || exists d :: AllDigits(d) && (s == "+" + d || s == "-" + d)
  {
    assert ("+" + digits)[1..] == digits && ("-" + digits)[1..] == digits;
    if Atoi(s).Some? && !AllDigits(s) {
      assert s == [s[0]] + s[1..];
    }
  }

  lemma AtoiEndsInDigit(s: string)
    requires s != [] && !IsDigit(s[|s| - 1])
    ensures Atoi(s) == None
  {
  }

  lemma ItoaInjective(m: nat, n: nat)
    requires Itoa(m) == Itoa(n)
    ensures m == n
  {
    DigitsOfItoa(m);
    DigitsOfItoa(n);
  }

  /** %0<width>d of a number that fits. */
  function PadDigits(n: nat, width: nat): (s: string)
    ensures |s| == width && forall i :: 0 <= i < |s| ==> IsDigit(s[i])
  {
    if width == 0 then "" else PadDigits(n / 10, width - 1) + [DigitChar(n % 10)]
  }

  function Pow10(width: nat): (p: nat)
    ensures p >= 1
  {
    if width == 0 then 1 else 10 * Pow10(width - 1)
  }

  lemma {:induction false} PadDigitsValue(n: nat, width: nat)
    requires n < Pow10(width)
    ensures DigitsValue(PadDigits(n, width)) == n
    decreases width
  {
    if width > 0 {
      PadDigitsValue(n / 10, width - 1);
      assert PadDigits(n, width)[..width - 1] == PadDigits(n / 10, width - 1);
    }
  }

  /** Fixed-width digit strings are determined by their value. */
  lemma {:induction false} PadDigitsOfValue(s: string)
    requires forall i :: 0 <= i < |s| ==> IsDigit(s[i])
    ensures DigitsValue(s) < Pow10(|s|) && PadDigits(DigitsValue(s), |s|) == s
    decreases |s|
  {
    if s != [] {
      var n := |s| - 1;
      PadDigitsOfValue(s[..n]);
      assert IsDigit(s[n]);
      assert DigitsValue(s) / 10 == DigitsValue(s[..n]);
      assert s == s[..n] + [s[n]];
    }
  }

  // ---- UTF-8 length -------------------------------------------------------

  function RuneBytes(c: char): (n: nat)
    ensures 1 <= n <= 4
  {
    if c < '\U{0080}' then 1 else if c < '\U{0800}' then 2 else if c < '\U{10000}' then 3 else 4
  }

  /** Go's len of a string. */
  function ByteLen(s: string): (n: nat)
    ensures n >= |s|
  {
    if s == [] then 0 else RuneBytes(s[0]) + ByteLen(s[1..])
  }

  /** A code point takes the least number of bytes whose payload, of 7, 11, 16 or 21 bits, it fits in. */
  lemma RuneBytesIsLeast(c: char, n: nat)
    requires 1 <= n <= 4
    ensures RuneBytes(c) <= n <==> c as int < [0, 0x80, 0x800, 0x1_0000, 0x20_0000][n]
  {
  }
}
