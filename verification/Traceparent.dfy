/** The trace-context header, version 00: generating, sanitizing and splitting it (W3C Trace Context, section 3.2.2). */
module Traceparent {
  import opened Outcomes
  import opened Text

  type Byte = b: int | 0 <= b < 256

  /** White space as Go's `strings.TrimSpace` understands it. */
  predicate IsGoSpace(c: char) {
    var n := c as int;
    || 0x09 <= n <= 0x0D || n == 0x20 || n == 0x85 || n == 0xA0 || n == 0x1680
    || 0x2000 <= n <= 0x200A || n == 0x2028 || n == 0x2029 || n == 0x202F || n == 0x205F || n == 0x3000
  }

  predicate AllZero(s: string) {
    forall i :: 0 <= i < |s| ==> s[i] == '0'
  }

  function HexDigit(n: int): (c: char)
    requires 0 <= n < 16
    ensures IsLowerHexDigit(c)
    ensures forall m :: 0 <= m < 16 && m != n ==> "0123456789abcdef"[m] != c
    ensures c == "0123456789abcdef"[n]
  {
    if n < 10 then ('0' as int + n) as char else ('a' as int + n - 10) as char
  }

  /** Two digits for each byte. */
  function HexOf(bytes: seq<Byte>): (s: string)
    ensures IsLowerHex(s, 2 * |bytes|)
  {
    if bytes == [] then ""
    else
      var rest := HexOf(bytes[1..]);
      [HexDigit(bytes[0] / 16), HexDigit(bytes[0] % 16)] + rest
  }

  function Repeat(c: char, n: nat): string {
    seq(n, i => c)
  }

  /** The hex text of a filled buffer, or zeros when the random source fails. */
  function RandomHex(entropy: Option<seq<Byte>>, length: nat): string {
    if entropy.Some? && |entropy.value| == length then HexOf(entropy.value) else Repeat('0', 2 * length)
  }

  method IsAllZeroHex(value: string) returns (r: bool)
    ensures r <==> AllZero(value)
  {
    for i := 0 to |value|
      invariant AllZero(value[..i])
    {
      if value[i] != '0' { return false; }
    }
    assert value[..|value|] == value;
    return true;
  }

  /** The trace id and span id that the version-00 pattern captures. */
  function Captures(c: string): Option<(string, string)> {
    if |c| == 55 && c[..3] == "00-" && c[35] == '-' && c[52] == '-'
       && IsLowerHex(c[3..35], 32) && IsLowerHex(c[36..52], 16) && IsLowerHex(c[53..], 2)
    then Some((c[3..35], c[36..52])) else None
  }

  function SanitizeTraceparent(value: string): string {
    var candidate := Trim(value, IsGoSpace);
    var ids := Captures(candidate);
    if ids.None? then ""
    else if AllZero(ids.value.0) || AllZero(ids.value.1) then ""
    else candidate
  }

  function OnesIfZero(id: string): string {
    if AllZero(id) then Repeat('1', |id|) else id
  }

  function GenerateTraceparent(traceEntropy: Option<seq<Byte>>, spanEntropy: Option<seq<Byte>>): string {
    "00-" + OnesIfZero(RandomHex(traceEntropy, 16)) + "-" + OnesIfZero(RandomHex(spanEntropy, 8)) + "-01"
  }

  function TraceIdFromTraceparent(traceparent: string): string {
    var parts := Split(traceparent, '-');
    if |parts| != 4 then "" else parts[1]
  }

  function SpanIdFromTraceparent(traceparent: string): string {
    var parts := Split(traceparent, '-');
    if |parts| != 4 then "" else parts[2]
  }

  // ----- The standard's form -----

  /** A usable id: lowercase hex of its length, not all zeros. */
  predicate IsUsableId(id: string, length: nat) {
    IsLowerHex(id, length) && !AllZero(id)
  }

  ghost predicate IsTraceparentOf(h: string, traceId: string, spanId: string, flags: string) {
    && h == Join(["00", traceId, spanId, flags], "-")
    && IsUsableId(traceId, 32) && IsUsableId(spanId, 16) && IsLowerHex(flags, 2)
  }

  ghost predicate IsTraceparent(h: string) {
    exists traceId, spanId, flags :: IsTraceparentOf(h, traceId, spanId, flags)
  }

  lemma JoinOfFour(a: string, b: string, c: string, d: string)
    ensures Join([a, b, c, d], "-") == a + "-" + b + "-" + c + "-" + d
  {
    assert [a, b, c, d][1..] == [b, c, d] && [b, c, d][1..] == [c, d] && [c, d][1..] == [d];
    assert Join([c, d], "-") == c + "-" + d;
    assert Join([b, c, d], "-") == b + "-" + (c + "-" + d);
  }

  /** The captured texts are exactly the parts of the standard's form. */
  lemma CapturesAreParts(h: string, traceId: string, spanId: string)
    ensures Captures(h) == Some((traceId, spanId))
       <==> exists flags :: h == Join(["00", traceId, spanId, flags], "-")
                         && IsLowerHex(traceId, 32) && IsLowerHex(spanId, 16) && IsLowerHex(flags, 2)
  {
    forall flags ensures Join(["00", traceId, spanId, flags], "-") == "00-" + traceId + "-" + spanId + "-" + flags {
      JoinOfFour("00", traceId, spanId, flags);
    }
    if Captures(h) == Some((traceId, spanId)) {
      assert h == "00-" + traceId + "-" + spanId + "-" + h[53..];
      assert h == Join(["00", traceId, spanId, h[53..]], "-");
    }
    forall flags | h == Join(["00", traceId, spanId, flags], "-")
                && IsLowerHex(traceId, 32) && IsLowerHex(spanId, 16) && IsLowerHex(flags, 2)
      ensures Captures(h) == Some((traceId, spanId))
    {
      assert h == "00-" + traceId + "-" + spanId + "-" + flags;
      assert h[3..35] == traceId && h[36..52] == spanId && h[53..] == flags;
    }
  }

  /** Sanitizing accepts exactly the headers that are in the standard's form once trimmed, and trims them. */
  lemma SanitizeAcceptsIff(value: string)
    ensures SanitizeTraceparent(value) != "" <==> IsTraceparent(Trim(value, IsGoSpace))
    ensures SanitizeTraceparent(value) != "" ==> SanitizeTraceparent(value) == Trim(value, IsGoSpace)
  {
    var h := Trim(value, IsGoSpace);
    if SanitizeTraceparent(value) != "" {
      var (traceId, spanId) := Captures(h).value;
      CapturesAreParts(h, traceId, spanId);
      var flags :| h == Join(["00", traceId, spanId, flags], "-") && IsLowerHex(flags, 2);
      assert IsTraceparentOf(h, traceId, spanId, flags);
    }
    forall traceId, spanId, flags | IsTraceparentOf(h, traceId, spanId, flags)
      ensures SanitizeTraceparent(value) == h && h != ""
    {
      CapturesAreParts(h, traceId, spanId);
    }
  }

  lemma NoDashInHex(s: string, length: nat)
    requires IsLowerHex(s, length)
    ensures '-' !in s
  {
  }

  /** Splitting an accepted header recovers its parts, and joining them gives it back. */
  lemma PartsOfTraceparent(h: string, traceId: string, spanId: string, flags: string)
    requires IsTraceparentOf(h, traceId, spanId, flags)
    ensures Split(h, '-') == ["00", traceId, spanId, flags]
    ensures TraceIdFromTraceparent(h) == traceId && SpanIdFromTraceparent(h) == spanId
  {
    NoDashInHex(traceId, 32);
    NoDashInHex(spanId, 16);
    NoDashInHex(flags, 2);
    SplitOfJoin(["00", traceId, spanId, flags], '-');
  }

  lemma AcceptedHeaderRoundTrip(value: string)
    requires SanitizeTraceparent(value) != ""
    ensures var h := SanitizeTraceparent(value);
            && IsUsableId(TraceIdFromTraceparent(h), 32)
            && IsUsableId(SpanIdFromTraceparent(h), 16)
            && |Split(h, '-')| == 4 && Join(Split(h, '-'), "-") == h
            && SanitizeTraceparent(h) == h
  {
    var h := SanitizeTraceparent(value);
    SanitizeAcceptsIff(value);
    var traceId, spanId, flags :| IsTraceparentOf(h, traceId, spanId, flags);
    PartsOfTraceparent(h, traceId, spanId, flags);
    JoinOfSplit(h, '-');
    StandardFormIsTrimmed(h);
    SanitizeAcceptsIff(h);
  }

  lemma StandardFormIsTrimmed(h: string)
    requires IsTraceparent(h)
    ensures Trim(h, IsGoSpace) == h
  {
    var traceId, spanId, flags :| IsTraceparentOf(h, traceId, spanId, flags);
    JoinOfFour("00", traceId, spanId, flags);
    assert h[0] == '0' && h[|h| - 1] == flags[1];
    assert IsLowerHexDigit(flags[1]);
    TrimIdentity(h, IsGoSpace);
  }

  lemma RandomHexIsHex(entropy: Option<seq<Byte>>, length: nat)
    ensures IsLowerHex(RandomHex(entropy, length), 2 * length)
    ensures length > 0 ==> IsUsableId(OnesIfZero(RandomHex(entropy, length)), 2 * length)
  {
    var id := RandomHex(entropy, length);
    if length > 0 && AllZero(id) {
      assert OnesIfZero(id)[0] == '1';
    }
  }

  lemma GeneratedIsStandard(traceEntropy: Option<seq<Byte>>, spanEntropy: Option<seq<Byte>>)
    ensures IsTraceparentOf(GenerateTraceparent(traceEntropy, spanEntropy),
                            OnesIfZero(RandomHex(traceEntropy, 16)), OnesIfZero(RandomHex(spanEntropy, 8)), "01")
  {
    RandomHexIsHex(traceEntropy, 16);
    RandomHexIsHex(spanEntropy, 8);
    FormatIsJoin(OnesIfZero(RandomHex(traceEntropy, 16)), OnesIfZero(RandomHex(spanEntropy, 8)));
  }

  lemma FormatIsJoin(traceId: string, spanId: string)
    ensures "00-" + traceId + "-" + spanId + "-01" == Join(["00", traceId, spanId, "01"], "-")
  {
    JoinOfFour("00", traceId, spanId, "01");
    assert "00-" == "00" + "-" && "-01" == "-" + "01";
    assert "00" + "-" + traceId + "-" + spanId + ("-" + "01") == "00" + "-" + traceId + "-" + spanId + "-" + "01";
  }

  /** A generated header passes unchanged and carries the generated ids, whatever the random source does. */
  lemma GeneratedPasses(traceEntropy: Option<seq<Byte>>, spanEntropy: Option<seq<Byte>>)
    ensures SanitizeTraceparent(GenerateTraceparent(traceEntropy, spanEntropy))
         == GenerateTraceparent(traceEntropy, spanEntropy)
    ensures TraceIdFromTraceparent(GenerateTraceparent(traceEntropy, spanEntropy))
         == OnesIfZero(RandomHex(traceEntropy, 16))
    ensures SpanIdFromTraceparent(GenerateTraceparent(traceEntropy, spanEntropy))
         == OnesIfZero(RandomHex(spanEntropy, 8))
  {
    GeneratedIsStandard(traceEntropy, spanEntropy);
    StandardPasses(GenerateTraceparent(traceEntropy, spanEntropy),
                   OnesIfZero(RandomHex(traceEntropy, 16)), OnesIfZero(RandomHex(spanEntropy, 8)), "01");
  }

  lemma StandardPasses(h: string, traceId: string, spanId: string, flags: string)
    requires IsTraceparentOf(h, traceId, spanId, flags)
    ensures SanitizeTraceparent(h) == h
    ensures TraceIdFromTraceparent(h) == traceId && SpanIdFromTraceparent(h) == spanId
  {
    PartsOfTraceparent(h, traceId, spanId, flags);
    StandardFormIsTrimmed(h);
    SanitizeAcceptsIff(h);
  }

  // ----- Requests -----

  /** The tracing library's span context: a trace id of 16 bytes, a span id of 8, and the flags. */
  datatype SpanContext = SpanContext(traceId: seq<Byte>, spanId: seq<Byte>, flags: Byte)

  /** A context counts only when both ids have their length and are not all zero. */
  predicate IsValidContext(context: SpanContext) {
    && |context.traceId| == 16 && (exists i :: 0 <= i < 16 && context.traceId[i] != 0)
    && |context.spanId| == 8 && (exists i :: 0 <= i < 8 && context.spanId[i] != 0)
  }

  /** The header a request continues with, and the ids that are logged and returned for it. */
  datatype Trace = Trace(traceparent: string, traceId: string, spanId: string)

  function CurrentTraceContext(context: SpanContext): Trace {
    if !IsValidContext(context) then Trace("", "", "")
    else
      var traceId, spanId := HexOf(context.traceId), HexOf(context.spanId);
      Trace("00-" + traceId + "-" + spanId + "-" + HexOf([context.flags]), traceId, spanId)
  }

  /** The span context if it is valid, else the request's own header if acceptable, else a generated one. */
  function RequestTrace(
    context: SpanContext, header: string, traceEntropy: Option<seq<Byte>>, spanEntropy: Option<seq<Byte>>): Trace
  {
    var current := CurrentTraceContext(context);
    if current.traceparent != "" then current
    else
      var own := SanitizeTraceparent(header);
      var h := if own != "" then own else GenerateTraceparent(traceEntropy, spanEntropy);
      Trace(h, TraceIdFromTraceparent(h), SpanIdFromTraceparent(h))
  }

  lemma {:induction false} HexOfZeroIff(bytes: seq<Byte>)
    ensures AllZero(HexOf(bytes)) <==> forall i :: 0 <= i < |bytes| ==> bytes[i] == 0
  {
    if bytes == [] {
    } else {
      var s := HexOf(bytes);
      HexOfZeroIff(bytes[1..]);
      assert s[0] == HexDigit(bytes[0] / 16) && s[1] == HexDigit(bytes[0] % 16) && s[2..] == HexOf(bytes[1..]);
      assert AllZero(s) <==> s[0] == '0' && s[1] == '0' && AllZero(s[2..]) by {
        assert forall i :: 2 <= i < |s| ==> s[i] == s[2..][i - 2];
      }
    }
  }

  lemma ContextIsStandard(context: SpanContext)
    requires IsValidContext(context)
    ensures var t := CurrentTraceContext(context);
            IsTraceparentOf(t.traceparent, t.traceId, t.spanId, HexOf([context.flags]))
  {
    HexOfZeroIff(context.traceId);
    HexOfZeroIff(context.spanId);
    JoinOfFour("00", HexOf(context.traceId), HexOf(context.spanId), HexOf([context.flags]));
  }

  function DigitValue(c: char): int { IndexOf("0123456789abcdef", c) }

  /** Reading hex text two digits at a time, the high one first. */
  function BytesOf(s: string): seq<int>
    decreases |s|
  {
    if |s| < 2 then [] else [16 * DigitValue(s[0]) + DigitValue(s[1])] + BytesOf(s[2..])
  }

  lemma TwoDigits(c: char, d: char, rest: string)
    ensures BytesOf([c, d] + rest) == [16 * DigitValue(c) + DigitValue(d)] + BytesOf(rest)
  {
    hide DigitValue;
    assert ([c, d] + rest)[2..] == rest;
  }

  /** Reading the hex text back gives the bytes. */
  lemma {:induction false} HexReadsBack(bytes: seq<Byte>)
    ensures BytesOf(HexOf(bytes)) == bytes
  {
    if bytes == [] {
    } else {
      hide BytesOf;
      HexReadsBack(bytes[1..]);
      FirstByteReadsBack(bytes[0], HexOf(bytes[1..]));
      assert bytes == [bytes[0]] + bytes[1..];
    }
  }

  lemma FirstByteReadsBack(b: Byte, rest: string)
    ensures BytesOf([HexDigit(b / 16), HexDigit(b % 16)] + rest) == [b] + BytesOf(rest)
  {
    hide BytesOf, DigitValue, HexDigit;
    TwoDigits(HexDigit(b / 16), HexDigit(b % 16), rest);
    DigitReadsBack(b / 16);
    DigitReadsBack(b % 16);
  }

  lemma DigitReadsBack(n: int)
    requires 0 <= n < 16
    ensures DigitValue(HexDigit(n)) == n
  {
    assert "0123456789abcdef"[n] == HexDigit(n);
  }

  /** Go's white space is Python's without the four separators at 1C to 1F. */
  lemma GoSpaces(c: char)
    ensures IsGoSpace(c) <==> IsSpace(c) && c !in "\U{1C}\U{1D}\U{1E}\U{1F}"
  {
  }

  /** The id drawn from a random source: its bytes, or all ones when they are zero or not there. */
  ghost predicate IsDrawnFrom(id: string, entropy: Option<seq<Byte>>, length: nat) {
    if entropy.Some? && |entropy.value| == length && exists i :: 0 <= i < length && entropy.value[i] != 0 then
      BytesOf(id) == entropy.value
    else |id| == 2 * length && forall i :: 0 <= i < |id| ==> id[i] == '1'
  }

  lemma DrawnIds(entropy: Option<seq<Byte>>, length: nat)
    ensures IsDrawnFrom(OnesIfZero(RandomHex(entropy, length)), entropy, length)
  {
    if entropy.Some? && |entropy.value| == length {
      HexOfZeroIff(entropy.value);
      HexReadsBack(entropy.value);
    }
  }

  ghost predicate IsZero(bytes: seq<Byte>) {
    forall b :: b in bytes ==> b == 0
  }

  ghost predicate HasBothIds(context: SpanContext) {
    |context.traceId| == 16 && !IsZero(context.traceId) && |context.spanId| == 8 && !IsZero(context.spanId)
  }

  lemma ValidContextIff(context: SpanContext)
    ensures IsValidContext(context) <==> HasBothIds(context)
  {
    if IsValidContext(context) {
      var i, j :| 0 <= i < 16 && context.traceId[i] != 0 && 0 <= j < 8 && context.spanId[j] != 0;
      assert context.traceId[i] in context.traceId && context.spanId[j] in context.spanId;
    }
  }

  /**
   Where a request's header comes from: a valid span context, else the request's own header if it is in
   the standard's form, else the random source.
   */
  lemma SourceOfTrace(
    context: SpanContext, header: string, traceEntropy: Option<seq<Byte>>, spanEntropy: Option<seq<Byte>>)
    ensures var t, own := RequestTrace(context, header, traceEntropy, spanEntropy), Trim(header, IsGoSpace);
            if HasBothIds(context) then
              && BytesOf(t.traceId) == context.traceId && BytesOf(t.spanId) == context.spanId
              && exists flags :: IsTraceparentOf(t.traceparent, t.traceId, t.spanId, flags)
                              && BytesOf(flags) == [context.flags]
            else if IsTraceparent(own) then
              t.traceparent == own
            else
              && IsTraceparentOf(t.traceparent, t.traceId, t.spanId, "01")
              && IsDrawnFrom(t.traceId, traceEntropy, 16) && IsDrawnFrom(t.spanId, spanEntropy, 8)
  {
    hide BytesOf, IsDrawnFrom, IsTraceparentOf, HexOf, OnesIfZero, RandomHex;
    ValidContextIff(context);
    if IsValidContext(context) {
      HexReadsBack(context.traceId);
      HexReadsBack(context.spanId);
      HexReadsBack([context.flags]);
      ContextIsStandard(context);
      ContextIsUsed(context, header, traceEntropy, spanEntropy);
    } else {
      SanitizeAcceptsIff(header);
      GeneratedPasses(traceEntropy, spanEntropy);
      GeneratedIsStandard(traceEntropy, spanEntropy);
      DrawnIds(traceEntropy, 16);
      DrawnIds(spanEntropy, 8);
    }
  }

  lemma ContextIsUsed(
    context: SpanContext, header: string, traceEntropy: Option<seq<Byte>>, spanEntropy: Option<seq<Byte>>)
    requires IsValidContext(context)
    ensures RequestTrace(context, header, traceEntropy, spanEntropy) == CurrentTraceContext(context)
  {
    assert CurrentTraceContext(context).traceparent[0] == '0';
  }

  /**
   Every request continues with a header in the standard's form, and is reported under usable ids
   that are the header's own: for every span context, header and outcome of the random source.
   */
  lemma EveryRequestIsTraced(
    context: SpanContext, header: string, traceEntropy: Option<seq<Byte>>, spanEntropy: Option<seq<Byte>>)
    ensures var t := RequestTrace(context, header, traceEntropy, spanEntropy);
            && SanitizeTraceparent(t.traceparent) == t.traceparent
            && t.traceId == TraceIdFromTraceparent(t.traceparent) && IsUsableId(t.traceId, 32)
            && t.spanId == SpanIdFromTraceparent(t.traceparent) && IsUsableId(t.spanId, 16)
  {
    if IsValidContext(context) {
      var t := CurrentTraceContext(context);
      ContextIsStandard(context);
      StandardPasses(t.traceparent, t.traceId, t.spanId, HexOf([context.flags]));
    } else if SanitizeTraceparent(header) != "" {
      AcceptedHeaderRoundTrip(header);
    } else {
      GeneratedPasses(traceEntropy, spanEntropy);
      RandomHexIsHex(traceEntropy, 16);
      RandomHexIsHex(spanEntropy, 8);
    }
  }

  lemma HexIsInjective(a: seq<Byte>, b: seq<Byte>)
    requires HexOf(a) == HexOf(b)
    ensures a == b
  {
    HexReadsBack(a);
    HexReadsBack(b);
  }

  /** Generated headers with nonzero ids are equal only when all their random bytes are. */
  lemma GeneratedHeadersAreDistinct(a: seq<Byte>, b: seq<Byte>, c: seq<Byte>, d: seq<Byte>)
    requires |a| == |c| == 16 && |b| == |d| == 8
    requires !AllZero(HexOf(a)) && !AllZero(HexOf(b)) && !AllZero(HexOf(c)) && !AllZero(HexOf(d))
    ensures GenerateTraceparent(Some(a), Some(b)) == GenerateTraceparent(Some(c), Some(d)) <==> a == c && b == d
  {
    GeneratedPasses(Some(a), Some(b));
    GeneratedPasses(Some(c), Some(d));
    if GenerateTraceparent(Some(a), Some(b)) == GenerateTraceparent(Some(c), Some(d)) {
      HexIsInjective(a, c);
      HexIsInjective(b, d);
    }
  }
}
