/** The two frontmatter parsers: the strict one of the evidence gate and the lenient one of the reference check. */
module Frontmatter {
  import opened Outcomes
  import opened Text

  datatype Fault = NoOpening | NoClosing | InvalidLine | EmptyKey

  datatype Document = Document(fields: map<string, string>, body: string)

  predicate IsDelimiter(line: string) {
    Strip(line) == "---"
  }

  /** The first delimiter line at or after `i`, or the number of lines. */
  function Closing(lines: seq<string>, i: nat): nat
    requires i <= |lines|
    ensures i <= Closing(lines, i) <= |lines|
    decreases |lines| - i
  {
    if i == |lines| || IsDelimiter(lines[i]) then i else Closing(lines, i + 1)
  }

  function KeyOf(line: string): string {
    Lower(Strip(line[..IndexOf(line, ':')]))
  }

  function RawValue(line: string): string
    requires ':' in line
  {
    line[IndexOf(line, ':') + 1..]
  }

  predicate IsQuoted(v: string) {
    |v| >= 2 && v[0] == v[|v| - 1] && IsQuote(v[0])
  }

  /** One pair of matching quotes is taken off a trimmed value. */
  function StripOptionalQuotes(value: string): string {
    var v := Strip(value);
    if IsQuoted(v) then Strip(v[1..|v| - 1]) else v
  }

  /** All quote characters are taken off both ends of a trimmed value. */
  function StripAllQuotes(value: string): string {
    Trim(Strip(value), IsQuote)
  }

  /** A blank line or a comment. */
  predicate IsNote(line: string) {
    var stripped := Strip(line);
    stripped == "" || stripped[0] == '#'
  }

  predicate IsStrictField(line: string) {
    !IsNote(line) && ':' in line
  }

  predicate IsLenientField(line: string) {
    var rest := DropLeading(line, IsSpace);
    ':' in line && !(rest != "" && rest[0] == '#')
  }

  /** The dictionary of the field lines; a later line replaces an earlier one with the same key. */
  function Fields(lines: seq<string>, isField: string -> bool, valueOf: string -> string): map<string, string> {
    if lines == [] then map[]
    else
      var init, line := Fields(lines[..|lines| - 1], isField, valueOf), lines[|lines| - 1];
      if isField(line) && ':' in line then init[KeyOf(line) := valueOf(RawValue(line))] else init
  }

  /** What the strict parser finds wrong with a line. */
  function LineFault(line: string): Option<Fault> {
    if IsNote(line) then None
    else if ':' !in line then Some(InvalidLine)
    else if KeyOf(line) == "" then Some(EmptyKey)
    else None
  }

  /** The fault of the first faulty line. */
  function FirstFault(lines: seq<string>): Option<Fault> {
    if lines == [] then None
    else
      var init := FirstFault(lines[..|lines| - 1]);
      if init.Some? then init else LineFault(lines[|lines| - 1])
  }

  function Strict(text: string): Result<Document, Fault> {
    var lines := SplitLines(text);
    if lines == [] || !IsDelimiter(lines[0]) then Err(NoOpening)
    else
      var end := Closing(lines, 1);
      if end == |lines| then Err(NoClosing)
      else
        match FirstFault(lines[1..end])
        case Some(fault) => Err(fault)
        case None => Ok(Document(Fields(lines[1..end], IsStrictField, StripOptionalQuotes),
                                 Join(lines[end + 1..], "\n")))
  }

  function Lenient(text: string): map<string, string> {
    var lines := SplitLines(text);
    if lines == [] || !IsDelimiter(lines[0]) then map[]
    else
      var end := Closing(lines, 1);
      if end == |lines| then map[] else Fields(lines[1..end], IsLenientField, StripAllQuotes)
  }

  // ----- What the parts of a line are -----

  /** A delimiter is three dashes with white space around them. */
  lemma DelimiterIff(line: string)
    ensures IsDelimiter(line) <==>
      exists lead, trail :: line == lead + "---" + trail && AllDropped(lead, IsSpace) && AllDropped(trail, IsSpace)
  {
    TrimIff(line, IsSpace, "---");
  }

  ghost predicate IsComment(line: string) {
    exists lead, rest :: line == lead + "#" + rest && AllDropped(lead, IsSpace)
  }

  /** A note is white space only, or a comment. */
  lemma NoteIff(line: string)
    ensures IsNote(line) <==> AllDropped(line, IsSpace) || IsComment(line)
  {
    hide IsSpace, IsComment;
    FirstAfterSpace(line);
    CommentIff(line);
  }

  lemma CommentIff(line: string)
    ensures IsComment(line) <==> DropLeading(line, IsSpace) != "" && DropLeading(line, IsSpace)[0] == '#'
  {
    hide DropLeading;
    var lead := LeadingSplit(line, IsSpace);
    var rest := DropLeading(line, IsSpace);
    if rest != "" && rest[0] == '#' {
      assert line == lead + "#" + rest[1..];
    }
    forall a: string, b | line == a + "#" + b && AllDropped(a, IsSpace) ensures rest != "" && rest[0] == '#' {
      AfterSpace(a, "#" + b);
      assert line == a + ("#" + b);
    }
  }

  lemma AfterSpace(lead: string, rest: string)
    requires AllDropped(lead, IsSpace) && rest != "" && !IsSpace(rest[0])
    ensures DropLeading(lead + rest, IsSpace) == rest
  {
    LeadingOfConcat(lead, rest, IsSpace);
  }

  lemma FirstAfterSpace(line: string)
    ensures Strip(line) == "" <==> AllDropped(line, IsSpace)
    ensures var rest := DropLeading(line, IsSpace);
            (rest == "" <==> Strip(line) == "") && (rest != "" ==> Strip(line) != "" && Strip(line)[0] == rest[0])
  {
    var lead := LeadingSplit(line, IsSpace);
    var rest := DropLeading(line, IsSpace);
    var trail := TrailingSplit(rest, IsSpace);
    assert rest == Strip(line) + trail;
    if rest != "" {
      assert rest[0] !in trail && line[|lead|] == rest[0];
    }
  }

  /** The lenient parser reads every line with a colon that is no comment. */
  lemma LenientFieldText(line: string)
    ensures IsLenientField(line) <==> ':' in line && !IsComment(line)
  {
    hide IsComment;
    CommentIff(line);
  }

  /** The key ends at the first colon and is read in lower case; the value is everything after it. */
  lemma KeyAndValueOf(key: string, raw: string)
    requires ':' !in key
    ensures var line := key + ":" + raw;
            ':' in line && KeyOf(line) == Lower(Strip(key)) && RawValue(line) == raw
  {
    var line, n := key + ":" + raw, |key|;
    assert line[n] == ':' && line[..n] == key && line[n + 1..] == raw;
    assert forall i :: 0 <= i < n ==> line[i] == key[i];
    assert IndexOf(line, ':') == n;
  }

  /** One pair of matching quotes comes off, and white space on both sides of each of them. */
  lemma QuotedValue(lead: string, quote: char, inner: string, trail: string)
    requires AllDropped(lead, IsSpace) && AllDropped(trail, IsSpace) && (quote == '\'' || quote == '"')
    ensures StripOptionalQuotes(lead + ([quote] + inner + [quote]) + trail) == Strip(inner)
  {
    var v := [quote] + inner + [quote];
    TrimOfPadded(lead, v, trail, IsSpace);
    assert v[1..|v| - 1] == inner;
  }

  /** Any other value only loses the white space around it. */
  lemma UnquotedValue(value: string)
    requires var v := Strip(value); |v| < 2 || v[0] != v[|v| - 1] || (v[0] != '\'' && v[0] != '"')
    ensures StripOptionalQuotes(value) == Strip(value)
  {
  }

  /** The lenient removal takes off the outer white space, and then all quotes at both ends. */
  lemma UnquotedEnds(value: string, core: string)
    ensures StripAllQuotes(value) == core <==>
      CleanEnds(core, IsQuote) && exists lead, trail ::
        Strip(value) == lead + core + trail && AllDropped(lead, IsQuote) && AllDropped(trail, IsQuote)
  {
    TrimIff(Strip(value), IsQuote, core);
  }

  method FindClosing(lines: seq<string>) returns (end: Option<nat>)
    requires lines != []
    ensures end == if Closing(lines, 1) == |lines| then None else Some(Closing(lines, 1))
  {
    for i := 1 to |lines|
      invariant Closing(lines, 1) == Closing(lines, i)
    {
      if IsDelimiter(lines[i]) { return Some(i); }
    }
    return None;
  }

  method ParseFrontmatter(text: string) returns (r: Result<Document, Fault>)
    ensures r == Strict(text)
  {
    var lines := SplitLines(text);
    if lines == [] || !IsDelimiter(lines[0]) { return Err(NoOpening); }
    var end := FindClosing(lines);
    if end.None? { return Err(NoClosing); }
    ghost var region := lines[1..end.value];
    var data: map<string, string> := map[];
    for i := 1 to end.value
      invariant data == Fields(region[..i - 1], IsStrictField, StripOptionalQuotes)
      invariant FirstFault(region[..i - 1]) == None
    {
      var line := lines[i];
      assert region[..i][..i - 1] == region[..i - 1] && region[..i][i - 1] == line;
      if IsNote(line) { continue; }
      if ':' !in line {
        FaultStays(region, i);
        return Err(InvalidLine);
      }
      var key, value := KeyOf(line), StripOptionalQuotes(RawValue(line));
      if key == "" {
        FaultStays(region, i);
        return Err(EmptyKey);
      }
      data := data[key := value];
    }
    assert region[..end.value - 1] == region;
    return Ok(Document(data, Join(lines[end.value + 1..], "\n")));
  }

  method ReadFrontmatter(text: string) returns (values: map<string, string>)
    ensures values == Lenient(text)
  {
    var lines := SplitLines(text);
    if lines == [] || !IsDelimiter(lines[0]) { return map[]; }
    var end := FindClosing(lines);
    if end.None? { return map[]; }
    ghost var region := lines[1..end.value];
    values := map[];
    for i := 1 to end.value
      invariant values == Fields(region[..i - 1], IsLenientField, StripAllQuotes)
    {
      var line := lines[i];
      assert region[..i][..i - 1] == region[..i - 1] && region[..i][i - 1] == line;
      if !IsLenientField(line) { continue; }
      values := values[KeyOf(line) := StripAllQuotes(RawValue(line))];
    }
    assert region[..end.value - 1] == region;
  }

  lemma {:induction false} FaultStays(lines: seq<string>, n: nat)
    requires n <= |lines| && FirstFault(lines[..n]).Some?
    ensures FirstFault(lines) == FirstFault(lines[..n])
  {
    if n == |lines| {
      assert lines[..n] == lines;
    } else {
      assert lines[..|lines| - 1][..n] == lines[..n];
      FaultStays(lines[..|lines| - 1], n);
    }
  }

  lemma {:induction false} NoFaultMeansSoundLines(lines: seq<string>)
    ensures FirstFault(lines) == None <==> forall i :: 0 <= i < |lines| ==> LineFault(lines[i]) == None
  {
    if lines == [] {
    } else {
      NoFaultMeansSoundLines(lines[..|lines| - 1]);
      assert forall i :: 0 <= i < |lines| - 1 ==> lines[..|lines| - 1][i] == lines[i];
    }
  }

  /** The strict parser accepts exactly the delimited texts whose lines are notes or fields with a key. */
  lemma StrictAcceptsIff(text: string)
    ensures var lines := SplitLines(text);
            Strict(text).Ok? <==>
              && lines != [] && IsDelimiter(lines[0])
              && exists end :: 1 <= end < |lines| && IsDelimiter(lines[end])
                  && forall i :: 1 <= i < end ==>
                       && !IsDelimiter(lines[i])
                       && (IsNote(lines[i]) || (':' in lines[i] && KeyOf(lines[i]) != ""))
  {
    var lines := SplitLines(text);
    if lines != [] {
      var end := Closing(lines, 1);
      ClosingIsFirst(lines, 1);
      NoFaultMeansSoundLines(lines[1..end]);
      assert forall i :: 1 <= i < end ==> lines[1..end][i - 1] == lines[i];
      assert forall i :: 0 <= i < |lines[1..end]| ==> lines[1..end][i] == lines[i + 1];
    }
  }

  lemma {:induction false} ClosingIsFirst(lines: seq<string>, i: nat)
    requires i <= |lines|
    ensures forall k :: i <= k < Closing(lines, i) ==> !IsDelimiter(lines[k])
    ensures Closing(lines, i) < |lines| ==> IsDelimiter(lines[Closing(lines, i)])
    decreases |lines| - i
  {
    if i == |lines| || IsDelimiter(lines[i]) {
    } else {
      ClosingIsFirst(lines, i + 1);
    }
  }

  /** A rejected line is the first faulty one. */
  lemma {:induction false} FirstFaultIsFirst(lines: seq<string>) returns (i: nat)
    requires FirstFault(lines).Some?
    ensures i < |lines| && LineFault(lines[i]) == FirstFault(lines)
    ensures forall k :: 0 <= k < i ==> LineFault(lines[k]) == None
  {
    var init := lines[..|lines| - 1];
    if FirstFault(init).Some? {
      i := FirstFaultIsFirst(init);
    } else {
      i := |lines| - 1;
      NoFaultMeansSoundLines(init);
      assert forall k :: 0 <= k < i ==> init[k] == lines[k];
    }
  }

  // ----- Agreement of the two parsers -----

  lemma LenientFieldIff(line: string)
    requires LineFault(line) == None
    ensures IsLenientField(line) <==> IsStrictField(line)
  {
    if ':' in line {
      var i :| 0 <= i < |line| && line[i] == ':';
      var lead, trail := TrimSplit(line, IsSpace);
      var start := LeadingSplit(line, IsSpace);
      assert !IsSpace(':');
      var rest := DropLeading(line, IsSpace);
      assert line[i] !in start ==> rest != [];
      var tail := TrailingSplit(rest, IsSpace);
      assert rest == Strip(line) + tail;
      assert rest[0] !in tail || Strip(line) != [];
    }
  }

  /** When the two ways of removing quotes give the same value. */
  predicate QuotesAreUnambiguous(v: string) {
    if IsQuoted(v) then CleanEnds(v[1..|v| - 1], c => IsQuote(c) || IsSpace(c)) else CleanEnds(v, IsQuote)
  }

  lemma TrimInsideQuotes(v: string)
    requires IsQuoted(v)
    ensures Trim(v, IsQuote) == Trim(v[1..|v| - 1], IsQuote)
  {
    var inner, q := v[1..|v| - 1], v[0];
    assert v[1..] == inner + [q];
    LeadingOfConcat(inner, [q], IsQuote);
    LeadingOfConcat(inner, [], IsQuote);
    assert inner + [] == inner;
    if !AllDropped(inner, IsQuote) {
      var rest := DropLeading(inner, IsQuote);
      assert (rest + [q])[..|rest|] == rest;
    }
  }

  lemma SameTrimsIffClean(s: string)
    ensures Strip(s) == Trim(s, IsQuote) <==> CleanEnds(s, c => IsQuote(c) || IsSpace(c))
  {
    TrimUnchangedIff(s, IsSpace);
    TrimUnchangedIff(s, IsQuote);
    TrimEnds(s, IsSpace);
    TrimEnds(s, IsQuote);
  }

  lemma ValuesAgreeIff(value: string)
    ensures StripOptionalQuotes(value) == StripAllQuotes(value) <==> QuotesAreUnambiguous(Strip(value))
  {
    var v := Strip(value);
    if IsQuoted(v) {
      TrimInsideQuotes(v);
      SameTrimsIffClean(v[1..|v| - 1]);
    } else {
      TrimUnchangedIff(v, IsQuote);
    }
  }

  /** The text after the colon on the last line that defines a key. */
  function LastRaw(lines: seq<string>, key: string): string
  {
    if lines == [] then ""
    else
      var line := lines[|lines| - 1];
      if IsStrictField(line) && KeyOf(line) == key then RawValue(line) else LastRaw(lines[..|lines| - 1], key)
  }

  lemma {:induction false} FieldsAgree(lines: seq<string>)
    requires forall i :: 0 <= i < |lines| ==> LineFault(lines[i]) == None
    ensures var strict, lenient := Fields(lines, IsStrictField, StripOptionalQuotes),
                                   Fields(lines, IsLenientField, StripAllQuotes);
            && strict.Keys == lenient.Keys
            && forall k :: k in strict ==>
                 && strict[k] == StripOptionalQuotes(LastRaw(lines, k))
                 && lenient[k] == StripAllQuotes(LastRaw(lines, k))
  {
    if lines == [] {
    } else {
      FieldsAgree(lines[..|lines| - 1]);
      LenientFieldIff(lines[|lines| - 1]);
    }
  }

  ghost function RawField(text: string, key: string): string {
    var lines := SplitLines(text);
    if lines == [] then "" else LastRaw(lines[1..Closing(lines, 1)], key)
  }

  /** Both parsers take a field's value from the same text. */
  lemma BothValuesOf(text: string, key: string)
    requires Strict(text).Ok? && key in Strict(text).value.fields
    ensures Strict(text).value.fields[key] == StripOptionalQuotes(RawField(text, key))
    ensures key in Lenient(text) && Lenient(text)[key] == StripAllQuotes(RawField(text, key))
  {
    var lines := SplitLines(text);
    var region := lines[1..Closing(lines, 1)];
    NoFaultMeansSoundLines(region);
    FieldsAgree(region);
  }

  /**
   On every text the strict parser accepts, the lenient one yields the same keys, and the same
   value for a key exactly when the quotes of its trimmed text are unambiguous.
   */
  lemma ParsersAgree(text: string)
    requires Strict(text).Ok?
    ensures Lenient(text).Keys == Strict(text).value.fields.Keys
    ensures forall k :: k in Lenient(text) ==>
      (Lenient(text)[k] == Strict(text).value.fields[k] <==> QuotesAreUnambiguous(Strip(RawField(text, k))))
  {
    var lines := SplitLines(text);
    var region := lines[1..Closing(lines, 1)];
    NoFaultMeansSoundLines(region);
    FieldsAgree(region);
    forall k | k in Lenient(text)
      ensures Lenient(text)[k] == Strict(text).value.fields[k] <==> QuotesAreUnambiguous(Strip(RawField(text, k)))
    {
      ValuesAgreeIff(RawField(text, k));
    }
  }
}
