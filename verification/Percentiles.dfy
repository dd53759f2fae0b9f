/** The nearest-rank percentile, over exact arithmetic. */
module Percentiles {
  import opened Outcomes

  function Insert(x: real, sorted: seq<real>): seq<real> {
    if sorted == [] || x <= sorted[0] then [x] + sorted else [sorted[0]] + Insert(x, sorted[1..])
  }

  function Sorted(values: seq<real>): seq<real> {
    if values == [] then [] else Insert(values[0], Sorted(values[1..]))
  }

  function Ceil(x: real): int { -((-x).Floor) }

  function Rank(n: nat, p: real): int {
    var r := Ceil(p / 100.0 * n as real);
    if r < 1 then 1 else r
  }

  /** The sample at the nearest rank, or nothing where the rank falls outside the samples. */
  function Percentile(values: seq<real>, p: real): Option<real> {
    var ordered, rank := Sorted(values), Rank(|values|, p);
    if rank <= |ordered| then Some(ordered[rank - 1]) else None
  }

  /** How many samples exceed a limit. */
  function CountAbove(values: seq<real>, limit: real): nat {
    if values == [] then 0 else CountAbove(values[1..], limit) + if values[0] > limit then 1 else 0
  }

  ghost predicate Ascending(s: seq<real>) {
    forall i, j :: 0 <= i <= j < |s| ==> s[i] <= s[j]
  }

  lemma {:induction false} InsertAscends(x: real, sorted: seq<real>)
    requires Ascending(sorted)
    ensures Ascending(Insert(x, sorted))
    ensures Insert(x, sorted)[0] == if sorted == [] || x <= sorted[0] then x else sorted[0]
  {
    if sorted == [] || x <= sorted[0] {
    } else {
      InsertAscends(x, sorted[1..]);
    }
  }

  lemma {:induction false} InsertAddsOne(x: real, sorted: seq<real>, limit: real)
    ensures multiset(Insert(x, sorted)) == multiset(sorted) + multiset{x}
    ensures |Insert(x, sorted)| == |sorted| + 1
    ensures CountAbove(Insert(x, sorted), limit) == CountAbove(sorted, limit) + if x > limit then 1 else 0
  {
    if sorted == [] || x <= sorted[0] {
    } else {
      InsertAddsOne(x, sorted[1..], limit);
      assert sorted == [sorted[0]] + sorted[1..];
    }
  }

  lemma {:induction false} SortedKeeps(values: seq<real>, limit: real)
    ensures Ascending(Sorted(values))
    ensures multiset(Sorted(values)) == multiset(values)
    ensures |Sorted(values)| == |values|
    ensures CountAbove(Sorted(values), limit) == CountAbove(values, limit)
  {
    if values == [] {
    } else {
      SortedKeeps(values[1..], limit);
      InsertAscends(values[0], Sorted(values[1..]));
      InsertAddsOne(values[0], Sorted(values[1..]), limit);
      assert values == [values[0]] + values[1..];
    }
  }

  lemma {:induction false} CountOfConcat(a: seq<real>, b: seq<real>, limit: real)
    ensures CountAbove(a + b, limit) == CountAbove(a, limit) + CountAbove(b, limit)
  {
    if a == [] {
      assert a + b == b;
    } else {
      assert (a + b)[1..] == a[1..] + b;
      CountOfConcat(a[1..], b, limit);
    }
  }

  lemma {:induction false} CountIsBounded(values: seq<real>, limit: real)
    ensures CountAbove(values, limit) <= |values|
    ensures (forall i :: 0 <= i < |values| ==> values[i] <= limit) ==> CountAbove(values, limit) == 0
    ensures (forall i :: 0 <= i < |values| ==> values[i] > limit) ==> CountAbove(values, limit) == |values|
  {
    if values == [] {
    } else {
      CountIsBounded(values[1..], limit);
    }
  }

  /** The sample at index `k` of a sorted list is within the limit iff few enough samples exceed it. */
  lemma OrderStatistic(s: seq<real>, k: nat, limit: real)
    requires Ascending(s) && k < |s|
    ensures s[k] <= limit <==> CountAbove(s, limit) <= |s| - 1 - k
  {
    hide CountAbove;
    if s[k] <= limit {
      CountOfCut(s, k + 1, limit);
      CountIsBounded(s[..k + 1], limit);
      CountIsBounded(s[k + 1..], limit);
    } else {
      CountOfCut(s, k, limit);
      CountIsBounded(s[k..], limit);
    }
  }

  lemma CountOfCut(s: seq<real>, k: nat, limit: real)
    requires k <= |s|
    ensures CountAbove(s, limit) == CountAbove(s[..k], limit) + CountAbove(s[k..], limit)
  {
    assert s == s[..k] + s[k..];
    CountOfConcat(s[..k], s[k..], limit);
  }

  /** A percentile exists exactly when there are samples and the percentile is at most 100. */
  lemma PercentileExistsIff(values: seq<real>, p: real)
    ensures Percentile(values, p).Some? <==> values != [] && p <= 100.0
  {
    SortedKeeps(values, 0.0);
    if values != [] {
      RankWithinIff(|values|, p);
    }
  }

  lemma RankWithinIff(n: nat, p: real)
    requires n >= 1
    ensures Rank(n, p) <= n <==> p <= 100.0
  {
    if p <= 100.0 {
      ScaleUp(p / 100.0, 1.0, n as real);
    } else {
      ScaleStrictly(1.0, p / 100.0, n as real);
    }
    CeilWithinIff(p / 100.0 * n as real, n);
  }

  lemma CeilWithinIff(x: real, n: int)
    ensures Ceil(x) <= n <==> x <= n as real
  {
  }

  lemma ScaleUp(a: real, b: real, n: real)
    requires a <= b && n >= 0.0
    ensures a * n <= b * n
  {
  }

  lemma ScaleStrictly(a: real, b: real, n: real)
    requires a < b && n > 0.0
    ensures a * n < b * n
  {
  }

  /** A percentile is within a limit exactly when at most `n - rank` samples exceed the limit. */
  lemma PercentileWithinIff(values: seq<real>, p: real, limit: real)
    requires Percentile(values, p).Some?
    ensures Percentile(values, p).value <= limit <==> CountAbove(values, limit) <= |values| - Rank(|values|, p)
  {
    SortedKeeps(values, limit);
    OrderStatistic(Sorted(values), Rank(|values|, p) - 1, limit);
  }

  /** The 95th percentile is within a limit exactly when at most one sample in twenty exceeds it. */
  lemma P95WithinIff(values: seq<real>, limit: real)
    requires values != []
    ensures Percentile(values, 95.0).Some?
    ensures Percentile(values, 95.0).value <= limit <==> CountAbove(values, limit) <= |values| / 20
  {
    PercentileExistsIff(values, 95.0);
    PercentileWithinIff(values, 95.0, limit);
    P95Rank(|values|);
  }

  lemma P95Rank(n: nat)
    requires n >= 1
    ensures n - Rank(n, 95.0) == n / 20
  {
    var x := 95.0 / 100.0 * n as real;
    assert x == n as real - n as real / 20.0;
    assert n == 20 * (n / 20) + n % 20;
    var q, m := n / 20, n % 20;
    assert n as real / 20.0 == q as real + m as real / 20.0;
    assert 0.0 <= m as real / 20.0 < 1.0;
    assert -x == (q - n) as real + m as real / 20.0;
    assert (-x).Floor == q - n;
  }

  /** The percentile is always one of the samples. */
  lemma PercentileIsASample(values: seq<real>, p: real)
    requires Percentile(values, p).Some?
    ensures Percentile(values, p).value in values
  {
    SortedKeeps(values, 0.0);
    assert Percentile(values, p).value in multiset(Sorted(values));
  }

  lemma OneTakenOut(x: real, w: seq<real>, limit: real) returns (rest: seq<real>)
    requires x in w
    ensures multiset(rest) == multiset(w) - multiset{x}
    ensures CountAbove(w, limit) == CountAbove(rest, limit) + if x > limit then 1 else 0
  {
    var k :| 0 <= k < |w| && w[k] == x;
    rest := w[..k] + w[k + 1..];
    WithoutOne(w, k, limit);
  }

  lemma HeadTakenOut(v: seq<real>)
    requires v != []
    ensures v[0] in multiset(v) && multiset(v[1..]) == multiset(v) - multiset{v[0]}
  {
    assert v == [v[0]] + v[1..];
  }

  lemma {:induction false} CountDependsOnContents(v: seq<real>, w: seq<real>, limit: real)
    requires multiset(v) == multiset(w)
    ensures CountAbove(v, limit) == CountAbove(w, limit)
  {
    if v == [] {
      assert |multiset(w)| == |w|;
    } else {
      HeadTakenOut(v);
      assert v[0] in w;
      var rest := OneTakenOut(v[0], w, limit);
      CountDependsOnContents(v[1..], rest, limit);
    }
  }

  lemma WithoutOne(w: seq<real>, k: nat, limit: real)
    requires k < |w|
    ensures multiset(w[..k] + w[k + 1..]) == multiset(w) - multiset{w[k]}
    ensures CountAbove(w, limit) == CountAbove(w[..k] + w[k + 1..], limit) + if w[k] > limit then 1 else 0
  {
    var tail := [w[k]] + w[k + 1..];
    assert w == w[..k] + tail;
    assert tail[1..] == w[k + 1..];
    CountOfConcat(w[..k], tail, limit);
    CountOfConcat(w[..k], w[k + 1..], limit);
  }

  /** The order of the samples is irrelevant. */
  lemma PercentileIgnoresOrder(v: seq<real>, w: seq<real>, p: real)
    requires multiset(v) == multiset(w)
    ensures Percentile(v, p) == Percentile(w, p)
  {
    assert |v| == |multiset(v)| == |multiset(w)| == |w|;
    PercentileExistsIff(v, p);
    PercentileExistsIff(w, p);
    if Percentile(v, p).Some? {
      var x, y := Percentile(v, p).value, Percentile(w, p).value;
      SameBounds(v, w, p, x);
      SameBounds(v, w, p, y);
    }
  }

  lemma SameBounds(v: seq<real>, w: seq<real>, p: real, limit: real)
    requires multiset(v) == multiset(w) && |v| == |w|
    requires Percentile(v, p).Some? && Percentile(w, p).Some?
    ensures Percentile(v, p).value <= limit <==> Percentile(w, p).value <= limit
  {
    CountDependsOnContents(v, w, limit);
    PercentileWithinIff(v, p, limit);
    PercentileWithinIff(w, p, limit);
  }

  lemma {:induction false} CountIsMonotone(v: seq<real>, w: seq<real>, limit: real)
    requires |v| == |w| && forall i :: 0 <= i < |v| ==> v[i] <= w[i]
    ensures CountAbove(v, limit) <= CountAbove(w, limit)
  {
    if v == [] {
    } else {
      CountIsMonotone(v[1..], w[1..], limit);
    }
  }

  /** Larger samples and a larger percentile never give a smaller result. */
  lemma PercentileIsMonotone(v: seq<real>, w: seq<real>, p: real, q: real)
    requires |v| == |w| && forall i :: 0 <= i < |v| ==> v[i] <= w[i]
    requires p <= q && Percentile(w, q).Some?
    ensures Percentile(v, p).Some? && Percentile(v, p).value <= Percentile(w, q).value
  {
    var limit := Percentile(w, q).value;
    PercentileExistsIff(v, p);
    PercentileExistsIff(v, q);
    PercentileExistsIff(w, q);
    RankIsMonotone(|v|, p, q);
    SortedKeeps(v, limit);
    PercentileWithinIff(w, q, limit);
    PercentileWithinIff(v, q, limit);
    CountIsMonotone(v, w, limit);
  }

  lemma RankIsMonotone(n: nat, p: real, q: real)
    requires p <= q
    ensures Rank(n, p) <= Rank(n, q)
  {
    ScaleUp(p / 100.0, q / 100.0, n as real);
    CeilIsMonotone(p / 100.0 * n as real, q / 100.0 * n as real);
  }

  lemma CeilIsMonotone(x: real, y: real)
    requires x <= y
    ensures Ceil(x) <= Ceil(y)
  {
  }
}
