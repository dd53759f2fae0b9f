/** Evidence files as texts: writing out fields and a body, and what both parsers read back. */
module EvidenceText {
  import opened Outcomes
  import opened Text
  import opened Frontmatter

  /** A field as it is written: its key, and everything after the colon. */
  datatype Entry = Entry(key: string, raw: string)

  /** A key that stands for itself: trimmed, in lower case, no comment, no colon. */
  predicate IsPlainKey(key: string) {
    key != "" && CleanEnds(key, IsSpace) && Lower(key) == key && key[0] != '#' && ':' !in key && IsOneLine(key)
  }

  predicate ArePlain(entries: seq<Entry>) {
    forall i :: 0 <= i < |entries| ==> IsPlainKey(entries[i].key) && IsOneLine(entries[i].raw)
  }

  predicate AreLines(lines: seq<string>) {
    forall i :: 0 <= i < |lines| ==> IsOneLine(lines[i])
  }

  function LineOf(e: Entry): string {
    e.key + ":" + e.raw
  }

  function FieldLines(entries: seq<Entry>): (lines: seq<string>)
    ensures |lines| == |entries|
    ensures forall i :: 0 <= i < |lines| ==> lines[i] == LineOf(entries[i])
  {
    seq(|entries|, i requires 0 <= i < |entries| => LineOf(entries[i]))
  }

  function Unlines(lines: seq<string>): string {
    if lines == [] then "" else lines[0] + "\n" + Unlines(lines[1..])
  }

  /** The evidence file with these fields and these lines of prose. */
  function Written(entries: seq<Entry>, body: seq<string>): string {
    Unlines(["---"] + FieldLines(entries) + ["---"] + body)
  }

  /** The dictionary of the entries; a later entry replaces an earlier one with the same key. */
  function Dictionary(entries: seq<Entry>, valueOf: string -> string): map<string, string> {
    if entries == [] then map[]
    else
      var init, e := Dictionary(entries[..|entries| - 1], valueOf), entries[|entries| - 1];
      init[e.key := valueOf(e.raw)]
  }

  // ----- Lines -----

  /** Splitting what was written line by line gives the lines back. */
  lemma {:induction false} LinesOfUnlines(lines: seq<string>)
    requires AreLines(lines)
    ensures SplitLines(Unlines(lines)) == lines
  {
    if lines == [] {
    } else {
      LinesOfUnlines(lines[1..]);
      BreakEndsLine(lines[0], "\n", Unlines(lines[1..]));
    }
  }

  // ----- Field lines -----

  lemma StrippedKeepsFirst(s: string, t: string)
    requires s != "" && !IsSpace(s[0])
    ensures Strip(s + t) != "" && Strip(s + t)[0] == s[0]
  {
    TrimEnds(s + t, IsSpace);
  }

  /** A written field is a field for both parsers, with its own key and value. */
  lemma LineIsField(e: Entry)
    requires IsPlainKey(e.key)
    ensures var line := LineOf(e);
            && LineFault(line) == None && IsStrictField(line) && IsLenientField(line) && !IsDelimiter(line)
            && KeyOf(line) == e.key && RawValue(line) == e.raw
  {
    var line := LineOf(e);
    KeyAndValueOf(e.key, e.raw);
    TrimIdentity(e.key, IsSpace);
    assert LineOf(e) == e.key + (":" + e.raw);
    StrippedKeepsFirst(e.key, ":" + e.raw);
    LenientFieldIff(line);
    ColonStays(line);
  }

  lemma ColonStays(line: string)
    requires ':' in line
    ensures ':' in Strip(line)
  {
    var lead, trail := TrimSplit(line, IsSpace);
    assert !IsSpace(':');
  }

  lemma {:induction false} FieldsOfEntries(
    entries: seq<Entry>, lines: seq<string>, isField: string -> bool, valueOf: string -> string)
    requires ArePlain(entries) && lines == FieldLines(entries)
    requires forall i :: 0 <= i < |lines| ==> isField(lines[i])
    ensures Fields(lines, isField, valueOf) == Dictionary(entries, valueOf)
  {
    if entries == [] {
    } else {
      var n := |entries| - 1;
      FieldsOfEntries(entries[..n], lines[..n], isField, valueOf);
      LineIsField(entries[n]);
    }
  }

  lemma {:induction false} ClosingAfter(lines: seq<string>, i: nat, end: nat)
    requires i <= end < |lines| && IsDelimiter(lines[end])
    requires forall k :: i <= k < end ==> !IsDelimiter(lines[k])
    ensures Closing(lines, i) == end
    decreases end - i
  {
    if i == end {
    } else {
      ClosingAfter(lines, i + 1, end);
    }
  }

  lemma FieldLinesAreFields(entries: seq<Entry>)
    requires ArePlain(entries)
    ensures FirstFault(FieldLines(entries)) == None
    ensures forall i :: 0 <= i < |entries| ==> !IsDelimiter(FieldLines(entries)[i])
    ensures Fields(FieldLines(entries), IsStrictField, StripOptionalQuotes) == Dictionary(entries, StripOptionalQuotes)
    ensures Fields(FieldLines(entries), IsLenientField, StripAllQuotes) == Dictionary(entries, StripAllQuotes)
  {
    hide LineFault, IsStrictField, IsLenientField, IsDelimiter, IsPlainKey, LineOf, StripOptionalQuotes, StripAllQuotes;
    forall i | 0 <= i < |entries|
      ensures var line := FieldLines(entries)[i];
        LineFault(line) == None && IsStrictField(line) && IsLenientField(line) && !IsDelimiter(line)
    {
      LineIsField(entries[i]);
    }
    NoFaultMeansSoundLines(FieldLines(entries));
    FieldsOfEntries(entries, FieldLines(entries), IsStrictField, StripOptionalQuotes);
    FieldsOfEntries(entries, FieldLines(entries), IsLenientField, StripAllQuotes);
  }

  /** Both parsers read a written file back: its entries, each with its own quote removal, and its body. */
  lemma WrittenIsReadBack(entries: seq<Entry>, body: seq<string>)
    requires ArePlain(entries) && AreLines(body)
    ensures Strict(Written(entries, body)) == Ok(Document(Dictionary(entries, StripOptionalQuotes), Join(body, "\n")))
    ensures Lenient(Written(entries, body)) == Dictionary(entries, StripAllQuotes)
  {
    hide SplitLines, Written, Fields, FirstFault, Dictionary, Join, ArePlain, AreLines, Closing, IsDelimiter;
    var end := |entries| + 1;
    var lines := ["---"] + FieldLines(entries) + ["---"] + body;
    LinesOfWritten(entries, body);
    FieldLinesAreFields(entries);
    DashesDelimit();
    assert forall i :: 1 <= i < end ==> lines[i] == FieldLines(entries)[i - 1];
    ClosingAfter(lines, 1, end);
    assert lines[1..end] == FieldLines(entries) && lines[end + 1..] == body;
  }

  lemma DashesDelimit()
    ensures IsDelimiter("---")
  {
    TrimIdentity("---", IsSpace);
  }

  lemma LinesOfWritten(entries: seq<Entry>, body: seq<string>)
    requires ArePlain(entries) && AreLines(body)
    ensures SplitLines(Written(entries, body)) == ["---"] + FieldLines(entries) + ["---"] + body
  {
    LinesOfUnlines(["---"] + FieldLines(entries) + ["---"] + body);
  }

  // ----- Every accepted file is a written one -----

  /** The entries of the field lines, in order. */
  function EntriesOf(lines: seq<string>): seq<Entry> {
    if lines == [] then []
    else
      var init, line := EntriesOf(lines[..|lines| - 1]), lines[|lines| - 1];
      if IsStrictField(line) then init + [Entry(KeyOf(line), RawValue(line))] else init
  }

  lemma {:induction false} LinesAreOneLine(line: string, text: string)
    requires IsOneLine(line)
    ensures AreLines(LinesFrom(line, text))
    decreases |text|
  {
    if text == [] {
    } else if IsLineBreak(text[0]) {
      LinesAreOneLine("", text[BreakWidth(text)..]);
    } else {
      LinesAreOneLine(line + [text[0]], text[1..]);
    }
  }

  lemma LowerKeepsCleanEnds(s: string)
    ensures Lower(Lower(s)) == Lower(s)
    ensures CleanEnds(s, IsSpace) ==> CleanEnds(Lower(s), IsSpace)
    ensures IsOneLine(s) ==> IsOneLine(Lower(s))
    ensures ':' !in s ==> ':' !in Lower(s)
  {
  }

  lemma KeyIsOneLine(line: string, prefix: string)
    requires IsOneLine(line) && prefix <= line && ':' !in prefix
    ensures ':' !in Strip(prefix) && IsOneLine(Strip(prefix)) && CleanEnds(Strip(prefix), IsSpace)
  {
    hide IsSpace, IsLineBreak;
    var lead, trail := TrimSplit(prefix, IsSpace);
    var key := Strip(prefix);
    forall i | 0 <= i < |key| ensures key[i] != ':' && !IsLineBreak(key[i]) {
      assert key[i] == prefix[|lead| + i] == line[|lead| + i];
    }
  }

  lemma KeyStartsTheLine(prefix: string, rest: string)
    requires Strip(prefix) != ""
    ensures Strip(prefix + rest) != "" && Strip(prefix + rest)[0] == Strip(prefix)[0]
  {
    hide IsSpace;
    var lead, trail := TrimSplit(prefix, IsSpace);
    assert prefix + rest == lead + (Strip(prefix) + trail + rest);
    FirstOfStripped(lead, Strip(prefix) + trail + rest);
  }

  lemma KeysArePlain(line: string)
    requires LineFault(line) == None && IsStrictField(line) && IsOneLine(line)
    ensures IsPlainKey(KeyOf(line)) && IsOneLine(RawValue(line))
  {
    hide IsSpace, IsLineBreak, Strip, Lower, CleanEnds;
    var n := IndexOf(line, ':');
    assert line == line[..n] + line[n..];
    KeyIsOneLine(line, line[..n]);
    LowerKeepsCleanEnds(Strip(line[..n]));
    KeyStartsTheLine(line[..n], line[n..]);
    LowerKeepsHash(Strip(line[..n]));
    SuffixIsOneLine(line, n + 1);
  }

  lemma LowerKeepsHash(s: string)
    requires s != ""
    ensures Lower(s) != "" && (Lower(s)[0] == '#' <==> s[0] == '#')
  {
  }

  lemma SuffixIsOneLine(line: string, n: nat)
    requires IsOneLine(line) && n <= |line|
    ensures IsOneLine(line[n..])
  {
  }

  lemma FirstOfStripped(lead: string, rest: string)
    requires AllDropped(lead, IsSpace) && rest != "" && !IsSpace(rest[0])
    ensures Strip(lead + rest) != "" && Strip(lead + rest)[0] == rest[0]
  {
    LeadingOfConcat(lead, rest, IsSpace);
    TrimEnds(rest, IsSpace);
  }

  lemma {:induction false} EntriesOfSoundLines(lines: seq<string>)
    requires AreLines(lines) && forall i :: 0 <= i < |lines| ==> LineFault(lines[i]) == None
    ensures ArePlain(EntriesOf(lines))
    ensures Fields(lines, IsStrictField, StripOptionalQuotes) == Dictionary(EntriesOf(lines), StripOptionalQuotes)
    ensures Fields(lines, IsLenientField, StripAllQuotes) == Dictionary(EntriesOf(lines), StripAllQuotes)
  {
    hide LineFault, IsOneLine, IsStrictField, IsLenientField, IsPlainKey, StripOptionalQuotes, StripAllQuotes;
    if lines == [] {
    } else {
      var init, line := lines[..|lines| - 1], lines[|lines| - 1];
      EntriesOfSoundLines(init);
      LenientFieldIff(line);
      StrictFieldsHaveColons(line);
      if IsStrictField(line) {
        KeysArePlain(line);
        DictionaryOfAppended(EntriesOf(init), Entry(KeyOf(line), RawValue(line)), StripOptionalQuotes);
        DictionaryOfAppended(EntriesOf(init), Entry(KeyOf(line), RawValue(line)), StripAllQuotes);
      }
    }
  }

  lemma DictionaryOfAppended(init: seq<Entry>, e: Entry, valueOf: string -> string)
    ensures Dictionary(init + [e], valueOf) == Dictionary(init, valueOf)[e.key := valueOf(e.raw)]
  {
    assert (init + [e])[..|init|] == init;
  }

  lemma StrictFieldsHaveColons(line: string)
    ensures IsStrictField(line) ==> ':' in line
  {
  }

  /** Every file the strict parser accepts reads, for both parsers, as a written file. */
  lemma AcceptedReadsAsWritten(text: string) returns (entries: seq<Entry>, body: seq<string>)
    requires Strict(text).Ok?
    ensures ArePlain(entries) && AreLines(body)
    ensures Strict(text) == Strict(Written(entries, body)) && Lenient(text) == Lenient(Written(entries, body))
  {
    var lines := SplitLines(text);
    var end := Closing(lines, 1);
    entries, body := EntriesOf(lines[1..end]), lines[end + 1..];
    LinesAreOneLine("", text);
    NoFaultMeansSoundLines(lines[1..end]);
    EntriesOfSoundLines(lines[1..end]);
    WrittenIsReadBack(entries, body);
  }
}
