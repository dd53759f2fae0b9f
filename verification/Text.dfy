/** The text operations the scripts rely on: trimming, splitting, line breaks and ASCII case. */
module Text {

  /** White space as `str.strip` understands it. */
  predicate IsSpace(c: char) {
    var n := c as int;
    || 0x09 <= n <= 0x0D || 0x1C <= n <= 0x20 || n == 0x85 || n == 0xA0 || n == 0x1680
    || 0x2000 <= n <= 0x200A || n == 0x2028 || n == 0x2029 || n == 0x202F || n == 0x205F || n == 0x3000
  }

  predicate IsQuote(c: char) {
    c == '\'' || c == '"'
  }

  function DropLeading(s: string, drop: char -> bool): string {
    if s != [] && drop(s[0]) then DropLeading(s[1..], drop) else s
  }

  function DropTrailing(s: string, drop: char -> bool): string {
    if s != [] && drop(s[|s| - 1]) then DropTrailing(s[..|s| - 1], drop) else s
  }

  function Trim(s: string, drop: char -> bool): string {
    DropTrailing(DropLeading(s, drop), drop)
  }

  function Strip(s: string): string {
    Trim(s, IsSpace)
  }

  /** Neither end is a dropped character. */
  predicate CleanEnds(s: string, drop: char -> bool) {
    s == [] || (!drop(s[0]) && !drop(s[|s| - 1]))
  }

  predicate AllDropped(s: string, drop: char -> bool) {
    forall i :: 0 <= i < |s| ==> drop(s[i])
  }

  lemma {:induction false} LeadingSplit(s: string, drop: char -> bool) returns (lead: string)
    ensures s == lead + DropLeading(s, drop) && AllDropped(lead, drop)
    ensures DropLeading(s, drop) == [] || !drop(DropLeading(s, drop)[0])
  {
    if s != [] && drop(s[0]) {
      var rest := LeadingSplit(s[1..], drop);
      lead := [s[0]] + rest;
    } else {
      lead := [];
    }
  }

  lemma {:induction false} TrailingSplit(s: string, drop: char -> bool) returns (trail: string)
    ensures s == DropTrailing(s, drop) + trail && AllDropped(trail, drop)
    ensures DropTrailing(s, drop) == [] || !drop(DropTrailing(s, drop)[|DropTrailing(s, drop)| - 1])
  {
    if s != [] && drop(s[|s| - 1]) {
      var rest := TrailingSplit(s[..|s| - 1], drop);
      trail := rest + [s[|s| - 1]];
      assert s == s[..|s| - 1] + [s[|s| - 1]];
    } else {
      trail := [];
    }
  }

  /** Trimming cuts a text into a dropped lead, a middle with clean ends, and a dropped trail. */
  lemma TrimSplit(s: string, drop: char -> bool) returns (lead: string, trail: string)
    ensures s == lead + Trim(s, drop) + trail
    ensures AllDropped(lead, drop) && AllDropped(trail, drop) && CleanEnds(Trim(s, drop), drop)
  {
    lead := LeadingSplit(s, drop);
    trail := TrailingSplit(DropLeading(s, drop), drop);
    var rest, core := DropLeading(s, drop), Trim(s, drop);
    assert core != [] ==> core[0] == rest[0];
  }

  lemma TrimIdentity(s: string, drop: char -> bool)
    requires CleanEnds(s, drop)
    ensures Trim(s, drop) == s
  {
  }

  lemma TrimUnchangedIff(s: string, drop: char -> bool)
    ensures Trim(s, drop) == s <==> CleanEnds(s, drop)
  {
    var lead, trail := TrimSplit(s, drop);
  }

  /** An end of the text that is not dropped is an end of the trimmed text. */
  lemma TrimEnds(s: string, drop: char -> bool)
    ensures CleanEnds(Trim(s, drop), drop)
    ensures s != [] && !drop(s[0]) ==> Trim(s, drop) != [] && Trim(s, drop)[0] == s[0]
    ensures s != [] && !drop(s[|s| - 1]) ==>
              Trim(s, drop) != [] && Trim(s, drop)[|Trim(s, drop)| - 1] == s[|s| - 1]
  {
    var lead, trail := TrimSplit(s, drop);
    var core := Trim(s, drop);
    if s != [] && !drop(s[0]) {
      assert s[0] !in lead && s[0] !in trail && s[0] == (lead + core + trail)[0];
    }
    if s != [] && !drop(s[|s| - 1]) {
      var z := s[|s| - 1];
      assert z !in lead && z !in trail && z == (lead + core + trail)[|lead + core + trail| - 1];
    }
  }

  lemma {:induction false} LeadingOfConcat(s: string, t: string, drop: char -> bool)
    ensures DropLeading(s + t, drop)
         == if AllDropped(s, drop) then DropLeading(t, drop) else DropLeading(s, drop) + t
  {
    if s == [] {
      assert s + t == t;
    } else {
      assert (s + t)[1..] == s[1..] + t;
      LeadingOfConcat(s[1..], t, drop);
      assert AllDropped(s, drop) <==> drop(s[0]) && AllDropped(s[1..], drop);
    }
  }

  lemma {:induction false} TrailingDropped(rest: string, trail: string, drop: char -> bool)
    requires AllDropped(trail, drop)
    ensures DropTrailing(rest + trail, drop) == DropTrailing(rest, drop)
  {
    if trail == [] {
      assert rest + trail == rest;
    } else {
      var n := |trail| - 1;
      assert (rest + trail)[..|rest + trail| - 1] == rest + trail[..n];
      TrailingDropped(rest, trail[..n], drop);
    }
  }

  /** The trimmed text is the one part with clean ends that only dropped characters surround. */
  lemma TrimIff(s: string, drop: char -> bool, core: string)
    ensures Trim(s, drop) == core <==> CleanEnds(core, drop) && exists lead, trail ::
      s == lead + core + trail && AllDropped(lead, drop) && AllDropped(trail, drop)
  {
    var lead, trail := TrimSplit(s, drop);
    forall a, b | s == a + core + b && AllDropped(a, drop) && AllDropped(b, drop) && CleanEnds(core, drop)
      ensures Trim(s, drop) == core
    {
      TrimOfPadded(a, core, b, drop);
    }
  }

  lemma TrimOfPadded(lead: string, core: string, trail: string, drop: char -> bool)
    requires AllDropped(lead, drop) && AllDropped(trail, drop) && CleanEnds(core, drop)
    ensures Trim(lead + core + trail, drop) == core
  {
    assert lead + core + trail == lead + (core + trail);
    LeadingOfConcat(lead, core + trail, drop);
    if core == [] {
      assert core + trail == trail + [];
      LeadingOfConcat(trail, [], drop);
    } else {
      TrailingDropped(core, trail, drop);
    }
  }

  // ----- Splitting -----

  /** The position of the first `c`, or the length of the text. */
  function IndexOf(s: string, c: char): (n: nat)
    ensures n <= |s|
    ensures n < |s| ==> s[n] == c
    ensures forall i :: 0 <= i < n ==> s[i] != c
    ensures n == |s| <==> c !in s
  {
    if s == [] || s[0] == c then 0
    else
      var n := IndexOf(s[1..], c);
      assert forall i :: 1 <= i < n + 1 ==> s[i] == s[1..][i - 1];
      n + 1
  }

  /** The pieces between the occurrences of a separator. */
  function Split(s: string, c: char): (parts: seq<string>)
    ensures parts != []
    decreases |s|
  {
    var n := IndexOf(s, c);
    if n == |s| then [s] else [s[..n]] + Split(s[n + 1..], c)
  }

  function Join(parts: seq<string>, separator: string): string {
    if parts == [] then ""
    else if |parts| == 1 then parts[0]
    else parts[0] + separator + Join(parts[1..], separator)
  }

  lemma SplitAtFirst(first: string, rest: string, c: char)
    requires c !in first
    ensures Split(first + [c] + rest, c) == [first] + Split(rest, c)
  {
    var s, n := first + [c] + rest, |first|;
    assert s[n] == c && s[..n] == first && s[n + 1..] == rest;
    assert forall i :: 0 <= i < n ==> s[i] == first[i];
    assert IndexOf(s, c) == n;
  }

  lemma JoinPrepends(first: string, parts: seq<string>, separator: string)
    requires parts != []
    ensures Join([first] + parts, separator) == first + separator + Join(parts, separator)
  {
    assert ([first] + parts)[1..] == parts;
  }

  /** Joining the pieces gives the text back. */
  lemma {:induction false} JoinOfSplit(s: string, c: char)
    ensures Join(Split(s, c), [c]) == s
    decreases |s|
  {
    var n := IndexOf(s, c);
    if n == |s| {
      assert Split(s, c) == [s];
    } else {
      hide Split, Join;
      var first, rest := s[..n], s[n + 1..];
      assert s == first + [c] + rest;
      JoinOfSplit(rest, c);
      SplitAtFirst(first, rest, c);
      JoinPrepends(first, Split(rest, c), [c]);
    }
  }

  /** No piece holds the separator. */
  lemma {:induction false} PiecesHoldNoSeparator(s: string, c: char)
    ensures forall i :: 0 <= i < |Split(s, c)| ==> c !in Split(s, c)[i]
    decreases |s|
  {
    var n := IndexOf(s, c);
    if n == |s| {
    } else {
      PiecesHoldNoSeparator(s[n + 1..], c);
    }
  }

  /** Splitting a text joined from separator-free pieces gives the pieces back. */
  lemma {:induction false} SplitOfJoin(parts: seq<string>, c: char)
    requires parts != [] && forall i :: 0 <= i < |parts| ==> c !in parts[i]
    ensures Split(Join(parts, [c]), c) == parts
  {
    if |parts| == 1 {
    } else {
      hide Split, Join;
      var first, rest := parts[0], parts[1..];
      assert parts == [first] + rest;
      SplitOfJoin(rest, c);
      JoinPrepends(first, rest, [c]);
      SplitAtFirst(first, Join(rest, [c]), c);
    }
  }

  /** The pieces are the only separator-free texts that join to the text. */
  lemma SplitIff(s: string, c: char, parts: seq<string>)
    ensures parts == Split(s, c) <==>
      && parts != [] && Join(parts, [c]) == s
      && forall i :: 0 <= i < |parts| ==> c !in parts[i]
  {
    JoinOfSplit(s, c);
    PiecesHoldNoSeparator(s, c);
    if parts != [] && Join(parts, [c]) == s && forall i :: 0 <= i < |parts| ==> c !in parts[i] {
      SplitOfJoin(parts, c);
    }
  }

  // ----- Lines -----

  predicate IsLineBreak(c: char) {
    var n := c as int;
    0x0A <= n <= 0x0D || 0x1C <= n <= 0x1E || n == 0x85 || n == 0x2028 || n == 0x2029
  }

  /** How many characters the line break at the front of `s` takes: two for a carriage return with a line feed. */
  function BreakWidth(s: string): (w: nat)
    requires s != []
    ensures 1 <= w <= |s|
  {
    if |s| >= 2 && s[0] == '\r' && s[1] == '\n' then 2 else 1
  }

  /** The lines of a text. A final break does not open another line. */
  function SplitLines(text: string): seq<string> {
    LinesFrom("", text)
  }

  function LinesFrom(line: string, text: string): seq<string>
    decreases |text|
  {
    if text == [] then (if line == [] then [] else [line])
    else if IsLineBreak(text[0]) then [line] + LinesFrom("", text[BreakWidth(text)..])
    else LinesFrom(line + [text[0]], text[1..])
  }

  /** Appending a text after a line feed appends its lines. */
  lemma {:induction false} LinesOfConcat(line: string, a: string, b: string)
    requires a != [] && a[|a| - 1] == '\n'
    ensures LinesFrom(line, a + b) == LinesFrom(line, a) + SplitLines(b)
    decreases |a|
  {
    assert (a + b)[0] == a[0];
    if IsLineBreak(a[0]) {
      var w := BreakWidth(a);
      assert BreakWidth(a + b) == w;
      assert (a + b)[w..] == a[w..] + b;
      if a[w..] == [] {
        assert a[w..] + b == b;
      } else {
        LinesOfConcat("", a[w..], b);
        assert [line] + (LinesFrom("", a[w..]) + SplitLines(b)) == [line] + LinesFrom("", a[w..]) + SplitLines(b);
      }
    } else {
      assert (a + b)[1..] == a[1..] + b;
      LinesOfConcat(line + [a[0]], a[1..], b);
    }
  }

  predicate IsOneLine(s: string) {
    forall i :: 0 <= i < |s| ==> !IsLineBreak(s[i])
  }

  lemma {:induction false} LineAhead(line: string, s: string, rest: string)
    requires IsOneLine(s)
    ensures LinesFrom(line, s + rest) == LinesFrom(line + s, rest)
    decreases |s|
  {
    if s == "" {
      assert s + rest == rest && line + s == line;
    } else {
      assert (s + rest)[0] == s[0] && (s + rest)[1..] == s[1..] + rest;
      LineAhead(line + [s[0]], s[1..], rest);
      assert line + [s[0]] + s[1..] == line + s;
    }
  }

  /** A text without a break is its only line, if it has any characters. */
  lemma LastLine(s: string)
    requires IsOneLine(s)
    ensures SplitLines(s) == if s == "" then [] else [s]
  {
    LineAhead("", s, "");
    assert s + "" == s && "" + s == s;
  }

  /** A break ends a line; a line feed after a carriage return belongs to it. */
  lemma BreakEndsLine(s: string, ending: string, rest: string)
    requires IsOneLine(s)
    requires ending == "\r\n" || (|ending| == 1 && IsLineBreak(ending[0]))
    requires ending == "\r" ==> rest == "" || rest[0] != '\n'
    ensures SplitLines(s + ending + rest) == [s] + SplitLines(rest)
  {
    assert s + ending + rest == s + (ending + rest);
    LineAhead("", s, ending + rest);
    assert "" + s == s;
    var text := ending + rest;
    assert text[0] == ending[0];
    assert BreakWidth(text) == |ending|;
    assert text[|ending|..] == rest;
  }

  // ----- Case -----

  function LowerChar(c: char): char {
    if 'A' <= c <= 'Z' then (c as int + 32) as char else c
  }

  function UpperChar(c: char): char {
    if 'a' <= c <= 'z' then (c as int - 32) as char else c
  }

  function Lower(s: string): (r: string)
    ensures |r| == |s|
  {
    seq(|s|, i requires 0 <= i < |s| => LowerChar(s[i]))
  }

  function Upper(s: string): (r: string)
    ensures |r| == |s|
  {
    seq(|s|, i requires 0 <= i < |s| => UpperChar(s[i]))
  }

  // ----- Hexadecimal -----

  predicate IsLowerHexDigit(c: char) {
    '0' <= c <= '9' || 'a' <= c <= 'f'
  }

  /** Lowercase hexadecimal digits only, and as many of them. */
  predicate IsLowerHex(s: string, length: nat) {
    |s| == length && forall i :: 0 <= i < |s| ==> IsLowerHexDigit(s[i])
  }

  // ----- Characters, spelled out -----

  const CAPITALS := "ABCDEFGHIJKLMNOPQRSTUVWXYZ"

  const SMALL_LETTERS := "abcdefghijklmnopqrstuvwxyz"

  const DIGITS := "0123456789"

  lemma Capitals(c: char)
    ensures 'A' <= c <= 'Z' <==> c in CAPITALS
  {
    assert forall i :: 0 <= i < 26 ==> CAPITALS[i] as int == 'A' as int + i;
    assert 'A' <= c <= 'Z' ==> CAPITALS[c as int - 'A' as int] == c;
  }

  lemma SmallLetters(c: char)
    ensures 'a' <= c <= 'z' <==> c in SMALL_LETTERS
  {
    assert forall i :: 0 <= i < 26 ==> SMALL_LETTERS[i] as int == 'a' as int + i;
    assert 'a' <= c <= 'z' ==> SMALL_LETTERS[c as int - 'a' as int] == c;
  }

  lemma Digits(c: char)
    ensures '0' <= c <= '9' <==> c in DIGITS
  {
    assert forall i :: 0 <= i < 10 ==> DIGITS[i] as int == '0' as int + i;
    assert '0' <= c <= '9' ==> DIGITS[c as int - '0' as int] == c;
  }

  /** Letters change case in step; every other character stays. */
  lemma CaseChanges(c: char, i: nat)
    requires i < 26
    ensures LowerChar(CAPITALS[i]) == SMALL_LETTERS[i] && UpperChar(SMALL_LETTERS[i]) == CAPITALS[i]
    ensures c !in CAPITALS ==> LowerChar(c) == c
    ensures c !in SMALL_LETTERS ==> UpperChar(c) == c
  {
    Capitals(c);
    SmallLetters(c);
    assert CAPITALS[i] as int == 'A' as int + i && SMALL_LETTERS[i] as int == 'a' as int + i;
  }

  lemma HexDigits(c: char)
    ensures IsLowerHexDigit(c) <==> c in "0123456789abcdef"
  {
    assert '0' <= c <= '9' ==> "0123456789abcdef"[c as int - '0' as int] == c;
    assert 'a' <= c <= 'f' ==> "0123456789abcdef"[10 + c as int - 'a' as int] == c;
  }

  /** The line breaks that `str.splitlines` knows. */
  lemma LineBreaks(c: char)
    ensures IsLineBreak(c) <==> c in "\n\U{0B}\U{0C}\r\U{1C}\U{1D}\U{1E}\U{85}\U{2028}\U{2029}"
  {
  }

  /** White space is the line breaks, the tab, the unit separator, and the spaces. */
  lemma Spaces(c: char)
    ensures IsSpace(c) <==>
      || IsLineBreak(c)
      || c in "\t\U{1F} \U{A0}\U{1680}\U{2000}\U{2001}\U{2002}\U{2003}\U{2004}\U{2005}"
      || c in "\U{2006}\U{2007}\U{2008}\U{2009}\U{200A}\U{202F}\U{205F}\U{3000}"
  {
  }
}
