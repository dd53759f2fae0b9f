/** App-version comparison and the versions a manifest supports. */
module Versions {
  import opened Outcomes
  import opened Text

  /**
   How the text of one version part becomes a number. The conversion is a parameter, so what is
   proved holds for any conversion, including one that turns unreadable parts into zero.
   */
  type Numbering = string -> real

  /** The text before the first `+` or `-`. */
  function Core(version: string): string {
    var plus, minus := IndexOf(version, '+'), IndexOf(version, '-');
    version[..if plus < minus then plus else minus]
  }

  function Parsed(version: string, number: Numbering): seq<real> {
    var parts := Split(Core(version), '.');
    seq(|parts|, i requires 0 <= i < |parts| => number(parts[i]))
  }

  /** Part `i` of a version; a missing part is zero. */
  function Part(parsed: seq<real>, i: nat): real {
    if i < |parsed| then parsed[i] else 0.0
  }

  /** The compared triple precedes another at its first difference. */
  ghost predicate Precedes(a: seq<real>, b: seq<real>) {
    exists i :: 0 <= i < 3 && Part(a, i) < Part(b, i) && forall j :: 0 <= j < i ==> Part(a, j) == Part(b, j)
  }

  ghost predicate SameTriple(a: seq<real>, b: seq<real>) {
    forall i :: 0 <= i < 3 ==> Part(a, i) == Part(b, i)
  }

  /** -1, 0 or 1 as the first version is before, level with or after the second. */
  ghost function Compare(left: string, right: string, number: Numbering): int {
    var a, b := Parsed(left, number), Parsed(right, number);
    if SameTriple(a, b) then 0 else if Precedes(a, b) then -1 else 1
  }

  method CompareVersions(left: string, right: string, number: Numbering) returns (c: int)
    ensures c == Compare(left, right, number)
    ensures c == -1 <==> Precedes(Parsed(left, number), Parsed(right, number))
    ensures c == 1 <==> Precedes(Parsed(right, number), Parsed(left, number))
    ensures c == 0 <==> SameTriple(Parsed(left, number), Parsed(right, number))
  {
    var a, b := Parsed(left, number), Parsed(right, number);
    for index := 0 to 3
      invariant forall j :: 0 <= j < index ==> Part(a, j) == Part(b, j)
    {
      if Part(a, index) != Part(b, index) {
        return if Part(a, index) > Part(b, index) then 1 else -1;
      }
    }
    return 0;
  }

  lemma ExactlyOneHolds(a: seq<real>, b: seq<real>)
    ensures SameTriple(a, b) || Precedes(a, b) || Precedes(b, a)
    ensures !(Precedes(a, b) && Precedes(b, a)) && !(SameTriple(a, b) && Precedes(a, b))
  {
    assert Part(a, 0) != Part(b, 0) || Part(a, 1) != Part(b, 1) || Part(a, 2) != Part(b, 2) || SameTriple(a, b);
  }

  /** Swapping the arguments flips the sign. */
  lemma SignFlips(v: string, w: string, number: Numbering)
    ensures Compare(v, w, number) == -Compare(w, v, number)
  {
    ExactlyOneHolds(Parsed(v, number), Parsed(w, number));
    ExactlyOneHolds(Parsed(w, number), Parsed(v, number));
  }

  /** "Not after" is transitive, and stays strict when either step is strict. */
  lemma NotAfterIsTransitive(u: string, v: string, w: string, number: Numbering)
    requires Compare(u, v, number) <= 0 && Compare(v, w, number) <= 0
    ensures Compare(u, w, number) <= 0
    ensures Compare(u, w, number) == 0 <==> Compare(u, v, number) == 0 && Compare(v, w, number) == 0
  {
    var a, b, c := Parsed(u, number), Parsed(v, number), Parsed(w, number);
    ExactlyOneHolds(a, b);
    ExactlyOneHolds(b, c);
    ExactlyOneHolds(a, c);
    if Precedes(a, b) && Precedes(b, c) {
      var i :| 0 <= i < 3 && Part(a, i) < Part(b, i) && forall j :: 0 <= j < i ==> Part(a, j) == Part(b, j);
      var k :| 0 <= k < 3 && Part(b, k) < Part(c, k) && forall j :: 0 <= j < k ==> Part(b, j) == Part(c, j);
      var m := if i < k then i else k;
      assert Part(a, m) < Part(c, m) && forall j :: 0 <= j < m ==> Part(a, j) == Part(c, j);
    } else if Precedes(a, b) {
      var i :| 0 <= i < 3 && Part(a, i) < Part(b, i) && forall j :: 0 <= j < i ==> Part(a, j) == Part(b, j);
      assert Part(a, i) < Part(c, i);
    } else if Precedes(b, c) {
      var k :| 0 <= k < 3 && Part(b, k) < Part(c, k) && forall j :: 0 <= j < k ==> Part(b, j) == Part(c, j);
      assert Part(a, k) < Part(c, k);
    }
  }

  /** Build metadata never affects a comparison (section 10 of SemVer 2.0.0), and neither does a pre-release. */
  lemma SuffixesAreIgnored(v: string, w: string, suffix: string, number: Numbering)
    requires suffix != "" && (suffix[0] == '+' || suffix[0] == '-')
    ensures Compare(v + suffix, w, number) == Compare(v, w, number)
    ensures Compare(w, v + suffix, number) == Compare(w, v, number)
  {
    CoreIgnoresSuffix(v, suffix);
  }

  lemma CoreIgnoresSuffix(v: string, suffix: string)
    requires suffix != "" && (suffix[0] == '+' || suffix[0] == '-')
    ensures Core(v + suffix) == Core(v)
  {
    var s := v + suffix;
    var plus, minus := IndexOf(v, '+'), IndexOf(v, '-');
    assert forall i :: 0 <= i < |v| ==> s[i] == v[i];
    assert s[|v|] == suffix[0];
    assert plus < |v| ==> IndexOf(s, '+') == plus;
    assert minus < |v| ==> IndexOf(s, '-') == minus;
    assert plus == |v| ==> IndexOf(s, '+') >= |v|;
    assert minus == |v| ==> IndexOf(s, '-') >= |v|;
  }

  /** An empty upper bound is no bound, and an empty version is always supported. */
  ghost predicate Supports(minimum: string, maximum: string, version: string, number: Numbering) {
    version == "" || (Compare(version, minimum, number) >= 0
                      && (maximum == "" || Compare(version, maximum, number) <= 0))
  }

  // ----- Comparison in the texts of the parts -----

  /** The text is one part of a version: it holds no separator and starts no suffix. */
  predicate IsPart(s: string) {
    '.' !in s && '+' !in s && '-' !in s
  }

  ghost predicate IsSuffix(s: string) {
    s == "" || s[0] == '+' || s[0] == '-'
  }

  /** The sign of the first difference of two triples. */
  function TripleSign(a: (real, real, real), b: (real, real, real)): int {
    if a.0 != b.0 then (if a.0 < b.0 then -1 else 1)
    else if a.1 != b.1 then (if a.1 < b.1 then -1 else 1)
    else if a.2 != b.2 then (if a.2 < b.2 then -1 else 1)
    else 0
  }

  /** A version that consists of these parts, and of a suffix. */
  ghost predicate IsMadeOf(version: string, parts: seq<string>, suffix: string) {
    && version == Join(parts, ".") + suffix && IsSuffix(suffix)
    && parts != [] && forall i :: 0 <= i < |parts| ==> IsPart(parts[i])
  }

  /** The first three parts as numbers; a missing one is zero. */
  function TripleOf(parts: seq<string>, number: Numbering): (real, real, real) {
    (if |parts| > 0 then number(parts[0]) else 0.0,
     if |parts| > 1 then number(parts[1]) else 0.0,
     if |parts| > 2 then number(parts[2]) else 0.0)
  }

  lemma {:induction false} JoinHoldsNoSuffix(parts: seq<string>)
    requires forall i :: 0 <= i < |parts| ==> IsPart(parts[i])
    ensures '+' !in Join(parts, ".") && '-' !in Join(parts, ".")
  {
    if |parts| <= 1 {
    } else {
      JoinHoldsNoSuffix(parts[1..]);
    }
  }

  lemma PartsAreParsed(version: string, parts: seq<string>, suffix: string, number: Numbering)
    requires IsMadeOf(version, parts, suffix)
    ensures |Parsed(version, number)| == |parts|
    ensures forall i :: 0 <= i < |parts| ==> Parsed(version, number)[i] == number(parts[i])
  {
    var joined := Join(parts, ".");
    JoinHoldsNoSuffix(parts);
    assert joined[..|joined|] == joined;
    assert Core(joined) == joined;
    if suffix == "" {
      assert version == joined;
    } else {
      CoreIgnoresSuffix(joined, suffix);
    }
    SplitOfJoin(parts, '.');
  }

  /**
   Versions are compared by the numbers of their first three parts, the first difference deciding, a
   missing part counting as zero, and suffixes not at all.
   */
  lemma ComparesParts(
    v: string, p: seq<string>, x: string, w: string, q: seq<string>, y: string, number: Numbering)
    requires IsMadeOf(v, p, x) && IsMadeOf(w, q, y)
    ensures Compare(v, w, number) == TripleSign(TripleOf(p, number), TripleOf(q, number))
  {
    PartsAreParsed(v, p, x, number);
    PartsAreParsed(w, q, y, number);
    var a, b := Parsed(v, number), Parsed(w, number);
    assert TripleOf(p, number) == (Part(a, 0), Part(a, 1), Part(a, 2));
    assert TripleOf(q, number) == (Part(b, 0), Part(b, 1), Part(b, 2));
    SignOfTriples(a, b);
  }

  lemma SignOfTriples(a: seq<real>, b: seq<real>)
    ensures TripleSign((Part(a, 0), Part(a, 1), Part(a, 2)), (Part(b, 0), Part(b, 1), Part(b, 2)))
         == if SameTriple(a, b) then 0 else if Precedes(a, b) then -1 else 1
  {
    ExactlyOneHolds(a, b);
  }

  /** Every version is made of its parts and a suffix, so the law above covers all versions. */
  lemma EveryVersionIsMadeOfParts(version: string) returns (parts: seq<string>, suffix: string)
    ensures IsMadeOf(version, parts, suffix)
  {
    hide Split, Core, IsSuffix;
    var core := Core(version);
    suffix := CoreAndSuffix(version);
    parts := Split(core, '.');
    JoinOfSplit(core, '.');
    PiecesHoldNoSeparator(core, '.');
    forall i | 0 <= i < |parts| ensures IsPart(parts[i]) {
      PiecesComeFromText(core, '.', i);
    }
  }

  lemma CoreAndSuffix(version: string) returns (suffix: string)
    ensures version == Core(version) + suffix && IsSuffix(suffix)
    ensures '+' !in Core(version) && '-' !in Core(version)
  {
    suffix := version[|Core(version)|..];
  }

  lemma PiecesComeFromText(s: string, c: char, i: nat)
    requires i < |Split(s, c)|
    ensures forall d :: d in Split(s, c)[i] ==> d in s
  {
    JoinOfSplit(s, c);
    PartsAreInJoin(Split(s, c), [c], i);
  }

  lemma {:induction false} PartsAreInJoin(parts: seq<string>, separator: string, i: nat)
    requires i < |parts|
    ensures forall d :: d in parts[i] ==> d in Join(parts, separator)
  {
    if |parts| == 1 {
    } else if i > 0 {
      PartsAreInJoin(parts[1..], separator, i - 1);
    }
  }

  /** Three plain parts on either side, and any suffixes: the numbers are compared from left to right. */
  lemma ComparesTriples(a: string, b: string, c: string, x: string, d: string, e: string, f: string, y: string,
                        number: Numbering)
    requires IsPart(a) && IsPart(b) && IsPart(c) && IsSuffix(x)
    requires IsPart(d) && IsPart(e) && IsPart(f) && IsSuffix(y)
    ensures Compare(a + "." + b + "." + c + x, d + "." + e + "." + f + y, number)
         == TripleSign((number(a), number(b), number(c)), (number(d), number(e), number(f)))
  {
    JoinOfThree(a, b, c);
    JoinOfThree(d, e, f);
    ComparesParts(a + "." + b + "." + c + x, [a, b, c], x, d + "." + e + "." + f + y, [d, e, f], y, number);
  }

  lemma JoinOfThree(a: string, b: string, c: string)
    ensures Join([a, b, c], ".") == a + "." + b + "." + c
  {
    assert [a, b, c][1..] == [b, c] && [b, c][1..] == [c];
    assert Join([b, c], ".") == b + "." + c;
  }

  // ----- Section 11 of SemVer 2.0.0 -----

  /** The pre-release of a version: what follows its first `-`, build metadata set aside. */
  function PreRelease(version: string): Option<string> {
    var plain := version[..IndexOf(version, '+')];
    var minus := IndexOf(plain, '-');
    if minus == |plain| then None else Some(plain[minus + 1..])
  }

  predicate IsNumeric(s: string) {
    s != "" && forall i :: 0 <= i < |s| ==> '0' <= s[i] <= '9'
  }

  function ValueOf(digits: string): nat
    requires forall i :: 0 <= i < |digits| ==> '0' <= digits[i] <= '9'
  {
    if digits == "" then 0
    else 10 * ValueOf(digits[..|digits| - 1]) + (digits[|digits| - 1] as int - '0' as int)
  }

  function Sign(m: int, n: int): int {
    if m < n then -1 else if m > n then 1 else 0
  }

  /** Character by character; a proper prefix comes first. */
  function TextSign(s: string, t: string): int {
    if s == "" || t == "" then Sign(|s|, |t|)
    else if s[0] != t[0] then Sign(s[0] as int, t[0] as int)
    else TextSign(s[1..], t[1..])
  }

  /** Numeric identifiers by value and before all others, the others as text. */
  function IdentifierSign(a: string, b: string): int {
    if IsNumeric(a) && IsNumeric(b) then Sign(ValueOf(a), ValueOf(b))
    else if IsNumeric(a) then -1
    else if IsNumeric(b) then 1
    else TextSign(a, b)
  }

  /** Identifier by identifier; when all shared ones are equal, the longer list comes last. */
  function IdentifiersSign(p: seq<string>, q: seq<string>): int {
    if p == [] || q == [] then Sign(|p|, |q|)
    else if IdentifierSign(p[0], q[0]) != 0 then IdentifierSign(p[0], q[0])
    else IdentifiersSign(p[1..], q[1..])
  }

  /** The example of section 11.4: alpha, alpha.1, alpha.beta, beta, beta.2, beta.11, rc.1, in this order. */
  lemma ExampleOrder()
    ensures IdentifiersSign(["alpha"], ["alpha", "1"]) == -1
    ensures IdentifiersSign(["alpha", "1"], ["alpha", "beta"]) == -1
    ensures IdentifiersSign(["alpha", "beta"], ["beta"]) == -1
    ensures IdentifiersSign(["beta"], ["beta", "2"]) == -1
    ensures IdentifiersSign(["beta", "2"], ["beta", "11"]) == -1
    ensures IdentifiersSign(["beta", "11"], ["rc", "1"]) == -1
  {
    assert !IsNumeric("alpha") && !IsNumeric("beta") && !IsNumeric("rc") by {
      assert "alpha"[0] == 'a' && "beta"[0] == 'b' && "rc"[0] == 'r';
    }
    TextsRankEqualIff("alpha", "alpha");
    TextsRankEqualIff("beta", "beta");
    assert ValueOf("2") == 2 by { assert "2"[..0] == ""; }
    assert ValueOf("11") == 11 by { assert "11"[..1] == "1" && "1"[..0] == ""; }
    assert ["alpha", "1"][1..] == ["1"] && ["alpha", "beta"][1..] == ["beta"] && ["alpha"][1..] == [];
    assert ["beta", "2"][1..] == ["2"] && ["beta", "11"][1..] == ["11"] && ["beta"][1..] == [];
  }

  /** A version with a pre-release comes before the one without. */
  function PreReleaseSign(p: Option<string>, q: Option<string>): int {
    if p.None? || q.None? then Sign(if p.None? then 1 else 0, if q.None? then 1 else 0)
    else IdentifiersSign(Split(p.value, '.'), Split(q.value, '.'))
  }

  /** The precedence of section 11: the triple decides, and then the pre-release. */
  ghost function SemVerSign(v: string, w: string, number: Numbering): int {
    if Compare(v, w, number) != 0 then Compare(v, w, number)
    else PreReleaseSign(PreRelease(v), PreRelease(w))
  }

  /** Comparison has the sign of section 11 exactly when the triples differ or the pre-releases rank equal. */
  lemma AgreesWithSemVerIff(v: string, w: string, number: Numbering)
    ensures Compare(v, w, number) == SemVerSign(v, w, number)
       <==> !SameTriple(Parsed(v, number), Parsed(w, number))
            || PreReleaseSign(PreRelease(v), PreRelease(w)) == 0
  {
    ExactlyOneHolds(Parsed(v, number), Parsed(w, number));
  }

  /** The identifiers section 9 allows: not empty, and numeric ones without leading zeros. */
  predicate IsWellFormedIdentifier(s: string) {
    s != "" && (IsNumeric(s) && |s| > 1 ==> s[0] != '0')
  }

  predicate IsWellFormedPreRelease(p: Option<string>) {
    p.Some? ==> forall i :: 0 <= i < |Split(p.value, '.')| ==> IsWellFormedIdentifier(Split(p.value, '.')[i])
  }

  /** So on well-formed versions it agrees exactly when the triples differ or the pre-release texts are equal. */
  lemma AgreesWithSemVerOnWellFormedIff(v: string, w: string, number: Numbering)
    requires IsWellFormedPreRelease(PreRelease(v)) && IsWellFormedPreRelease(PreRelease(w))
    ensures Compare(v, w, number) == SemVerSign(v, w, number)
       <==> !SameTriple(Parsed(v, number), Parsed(w, number)) || PreRelease(v) == PreRelease(w)
  {
    AgreesWithSemVerIff(v, w, number);
    var p, q := PreRelease(v), PreRelease(w);
    if p.Some? && q.Some? {
      IdentifiersRankEqualIff(Split(p.value, '.'), Split(q.value, '.'));
      JoinOfSplit(p.value, '.');
      JoinOfSplit(q.value, '.');
    }
  }

  lemma {:induction false} IdentifiersRankEqualIff(p: seq<string>, q: seq<string>)
    requires forall i :: 0 <= i < |p| ==> IsWellFormedIdentifier(p[i])
    requires forall i :: 0 <= i < |q| ==> IsWellFormedIdentifier(q[i])
    ensures IdentifiersSign(p, q) == 0 <==> p == q
  {
    if p == [] || q == [] {
    } else {
      IdentifierRanksEqualIff(p[0], q[0]);
      IdentifiersRankEqualIff(p[1..], q[1..]);
      assert p == [p[0]] + p[1..] && q == [q[0]] + q[1..];
    }
  }

  lemma IdentifierRanksEqualIff(a: string, b: string)
    requires IsWellFormedIdentifier(a) && IsWellFormedIdentifier(b)
    ensures IdentifierSign(a, b) == 0 <==> a == b
  {
    if IsNumeric(a) && IsNumeric(b) {
      if ValueOf(a) == ValueOf(b) {
        ValueIsInjective(a, b);
      }
    } else {
      TextsRankEqualIff(a, b);
    }
  }

  lemma {:induction false} TextsRankEqualIff(s: string, t: string)
    ensures TextSign(s, t) == 0 <==> s == t
  {
    if s == "" || t == "" {
    } else {
      TextsRankEqualIff(s[1..], t[1..]);
      assert s == [s[0]] + s[1..] && t == [t[0]] + t[1..];
    }
  }

  lemma {:induction false} LeadingDigitCounts(s: string)
    requires IsNumeric(s) && s[0] != '0'
    ensures ValueOf(s) > 0
  {
    if |s| == 1 {
      assert s[..0] == "";
    } else {
      LeadingDigitCounts(s[..|s| - 1]);
    }
  }

  lemma {:induction false} ValueIsInjective(a: string, b: string)
    requires IsNumeric(a) && IsNumeric(b) && IsWellFormedIdentifier(a) && IsWellFormedIdentifier(b)
    requires ValueOf(a) == ValueOf(b)
    ensures a == b
    decreases |a|
  {
    var m, n := |a| - 1, |b| - 1;
    assert ValueOf(a) == 10 * ValueOf(a[..m]) + (a[m] as int - '0' as int);
    assert ValueOf(b) == 10 * ValueOf(b[..n]) + (b[n] as int - '0' as int);
    assert a[m] == b[n] && ValueOf(a[..m]) == ValueOf(b[..n]);
    if m > 0 {
      LeadingDigitCounts(a[..m]);
    }
    if n > 0 {
      LeadingDigitCounts(b[..n]);
    }
    if m > 0 && n > 0 {
      ValueIsInjective(a[..m], b[..n]);
    }
    assert a == a[..m] + [a[m]] && b == b[..n] + [b[n]];
  }

  /** Appending a pre-release to a version without suffixes makes it the version's pre-release. */
  lemma AppendedPreRelease(core: string, tag: string)
    requires '+' !in core && '-' !in core && '+' !in tag
    ensures PreRelease(core) == None && PreRelease(core + "-" + tag) == Some(tag)
  {
    var v := core + "-" + tag;
    assert core[..|core|] == core && v[..|v|] == v;
    assert v[|core|] == '-' && v[|core| + 1..] == tag;
    assert forall i :: 0 <= i < |core| ==> v[i] == core[i] && v[i] != '-';
    assert IndexOf(v, '+') == |v| && IndexOf(v, '-') == |core|;
  }

  /**
   A pre-release of a version without suffixes ranks below it, and yet compares as equal to it and
   is taken for it by a minimum.
   */
  lemma PreReleaseIsTakenForItsRelease(core: string, tag: string, number: Numbering)
    requires '+' !in core && '-' !in core && '+' !in tag
    ensures SemVerSign(core + "-" + tag, core, number) == -1
    ensures Compare(core + "-" + tag, core, number) == 0
    ensures Supports(core, "", core + "-" + tag, number)
  {
    AppendedPreRelease(core, tag);
    assert core + "-" + tag == core + ("-" + tag);
    SuffixesAreIgnored(core, core, "-" + tag, number);
    assert SameTriple(Parsed(core, number), Parsed(core, number));
  }

  /** An instance: a beta passes the minimum it does not reach. */
  lemma BetaPassesItsReleaseAsMinimum(number: Numbering)
    ensures SemVerSign("2.0.0-beta", "2.0.0", number) == -1 && Supports("2.0.0", "", "2.0.0-beta", number)
  {
    assert "2.0.0" + "-" + "beta" == "2.0.0-beta";
    PreReleaseIsTakenForItsRelease("2.0.0", "beta", number);
  }

  // ----- Supported versions -----

  method SupportsAppVersion(minimum: string, maximum: string, version: string, number: Numbering)
    returns (supported: bool)
    ensures supported <==> Supports(minimum, maximum, version, number)
  {
    if version == "" { return true; }
    var low := CompareVersions(version, minimum, number);
    if low < 0 { return false; }
    if maximum == "" { return true; }
    var high := CompareVersions(version, maximum, number);
    return high <= 0;
  }

  /** The non-empty versions a manifest supports form an interval: whatever lies between two of them is one. */
  lemma SupportIsConvex(minimum: string, maximum: string, u: string, v: string, w: string, number: Numbering)
    requires u != "" && w != ""
    requires Supports(minimum, maximum, u, number) && Supports(minimum, maximum, w, number)
    requires Compare(u, v, number) <= 0 && Compare(v, w, number) <= 0
    ensures Supports(minimum, maximum, v, number)
  {
    SignFlips(u, minimum, number);
    SignFlips(v, minimum, number);
    NotAfterIsTransitive(minimum, u, v, number);
    if maximum != "" {
      NotAfterIsTransitive(v, w, maximum, number);
    }
  }
}
