/** The live map's courier index: one best point per courier, in order of first appearance. */
module CourierMap {
  import opened Outcomes
  import opened FirstSeen

  /** A coordinate as received: its text, and its number when that is finite. */
  datatype Coordinate = Coordinate(text: string, number: Option<real>)

  datatype Flag = NoFlag | BoolFlag(value: bool) | TextFlag(text: string)

  datatype Instant = NoInstant | Unparseable | At(ms: int)

  /** A text field that is absent is empty. */
  datatype CourierPoint = CourierPoint(
    accountId: string,
    courierProfileId: string,
    lat: Coordinate,
    lng: Coordinate,
    status: string,
    isOnline: Flag,
    lastLocationAt: Instant)

  predicate IsCourierOnline(p: CourierPoint) {
    if p.status != "" then p.status == "online"
    else p.isOnline == BoolFlag(true) || p.isOnline == TextFlag("true")
  }

  function Decimal(n: nat): string {
    (if n < 10 then "" else Decimal(n / 10)) + ["0123456789"[n % 10]]
  }

  function GetCourierPointKey(p: CourierPoint, index: nat): string {
    if p.accountId != "" then "account:" + p.accountId
    else if p.courierProfileId != "" then "profile:" + p.courierProfileId
    else "coordinate:" + p.lat.text + ":" + p.lng.text + ":" + Decimal(index)
  }

  function GetLocationTimestamp(p: CourierPoint): int {
    if p.lastLocationAt.At? then p.lastLocationAt.ms else 0
  }

  predicate ShouldUseNext(current: CourierPoint, next: CourierPoint) {
    if IsCourierOnline(current) != IsCourierOnline(next) then IsCourierOnline(next)
    else GetLocationTimestamp(next) > GetLocationTimestamp(current)
  }

  predicate HasFinitePosition(p: CourierPoint) {
    p.lat.number.Some? && p.lng.number.Some?
  }

  // ----- What the points themselves say -----

  /** A status decides; without one, the flag does. */
  ghost predicate SaysOnline(p: CourierPoint) {
    p.status == "online" || (p.status == "" && (p.isOnline == BoolFlag(true) || p.isOnline == TextFlag("true")))
  }

  /** The first point is located strictly before the second; without a readable instant it counts as 0. */
  ghost predicate IsSeenBefore(p: CourierPoint, q: CourierPoint) {
    match (p.lastLocationAt, q.lastLocationAt)
    case (At(m), At(n)) => m < n
    case (At(m), _) => m < 0
    case (_, At(n)) => 0 < n
    case _ => false
  }

  /** The first point is preferred to the second: online before offline, and then the later one. */
  ghost predicate Beats(p: CourierPoint, q: CourierPoint) {
    || (SaysOnline(p) && !SaysOnline(q))
    || ((SaysOnline(p) <==> SaysOnline(q)) && IsSeenBefore(q, p))
  }

  ghost predicate IsPlaced(p: CourierPoint) {
    p.lat.number.Some? && p.lng.number.Some?
  }

  /** The tests of the screen in the points' own fields. */
  lemma TestsReadTheFields(current: CourierPoint, next: CourierPoint)
    ensures IsCourierOnline(current) <==> SaysOnline(current)
    ensures ShouldUseNext(current, next) <==> Beats(next, current)
    ensures HasFinitePosition(current) <==> IsPlaced(current)
  {
  }

  datatype Entry = Entry(key: string, point: CourierPoint)

  function EntryKey(e: Entry): string { e.key }

  /** The points that can be placed on the map, each under its key. */
  ghost function Entries(points: seq<CourierPoint>): seq<Entry> {
    if points == [] then []
    else
      var n := |points| - 1;
      if IsPlaced(points[n]) then
        Entries(points[..n]) + [Entry(GetCourierPointKey(points[n], n), points[n])]
      else Entries(points[..n])
  }

  // ----- The plain definition -----

  /** Entry `i` is the earliest of the best entries under its key: online first, then the latest. */
  ghost predicate IsBest(entries: seq<Entry>, i: int) {
    && 0 <= i < |entries|
    && (forall j :: 0 <= j < |entries| && entries[j].key == entries[i].key ==>
          !Beats(entries[j].point, entries[i].point))
    && (forall j :: 0 <= j < i && entries[j].key == entries[i].key ==>
          Beats(entries[i].point, entries[j].point))
  }

  ghost predicate IsBestFor(entries: seq<Entry>, key: string, p: CourierPoint) {
    exists i :: IsBest(entries, i) && entries[i].key == key && entries[i].point == p
  }

  ghost function KeysInOrder(entries: seq<Entry>): seq<string> {
    Keys(FirstBy(entries, EntryKey), EntryKey)
  }

  /** One point per key, in order of first appearance, each the best of its key. */
  ghost predicate IsCourierIndex(entries: seq<Entry>, unique: seq<CourierPoint>) {
    && |unique| == |KeysInOrder(entries)|
    && forall n :: 0 <= n < |unique| ==> IsBestFor(entries, KeysInOrder(entries)[n], unique[n])
  }

  ghost function OnlineKeys(entries: seq<Entry>): set<string> {
    set i | 0 <= i < |entries| && SaysOnline(entries[i].point) :: entries[i].key
  }

  // ----- The index -----

  ghost predicate Holds(order: seq<string>, points: map<string, CourierPoint>, entries: seq<Entry>) {
    && order == KeysInOrder(entries)
    && points.Keys == KeySet(entries, EntryKey)
    && forall k :: k in points ==> IsBestFor(entries, k, points[k])
  }

  /** An insertion-ordered map: replacing a value keeps the key's place. */
  class OrderedIndex {
    var order: seq<string>
    var points: map<string, CourierPoint>

    ghost predicate Indexes(entries: seq<Entry>)
      reads this
    {
      Holds(order, points, entries)
    }

    constructor ()
      ensures Indexes([])
    {
      order, points := [], map[];
    }

    method Offer(key: string, point: CourierPoint, ghost entries: seq<Entry>)
      requires Indexes(entries)
      modifies this
      ensures Indexes(entries + [Entry(key, point)])
    {
      OfferKeepsIndex(order, points, entries, Entry(key, point));
      if key in points {
        TestsReadTheFields(points[key], point);
      }
      if key !in points {
        order := order + [key];
        points := points[key := point];
      } else if ShouldUseNext(points[key], point) {
        points := points[key := point];
      }
    }

    method Values(ghost entries: seq<Entry>) returns (values: seq<CourierPoint>)
      requires Indexes(entries)
      ensures IsCourierIndex(entries, values)
    {
      KeysHold(order, points, entries);
      values := seq(|order|, n requires 0 <= n < |order| && order[n] in points reads this => points[order[n]]);
    }
  }

  lemma KeysHold(order: seq<string>, points: map<string, CourierPoint>, entries: seq<Entry>)
    requires Holds(order, points, entries)
    ensures forall n :: 0 <= n < |order| ==> order[n] in points
  {
    FirstByKeepsEachKeyOnce(entries, EntryKey);
    forall n | 0 <= n < |order| ensures order[n] in points {
      assert EntryKey(FirstBy(entries, EntryKey)[n]) in KeySet(FirstBy(entries, EntryKey), EntryKey);
    }
  }

  /** Appending an entry of another key, or one that is no better, keeps a best entry best. */
  lemma BestSurvives(entries: seq<Entry>, e: Entry, key: string, p: CourierPoint)
    requires IsBestFor(entries, key, p)
    requires e.key != key || !Beats(e.point, p)
    ensures IsBestFor(entries + [e], key, p)
  {
    var i :| IsBest(entries, i) && entries[i].key == key && entries[i].point == p;
    assert IsBest(entries + [e], i);
  }

  lemma BetterEntryIsBest(entries: seq<Entry>, e: Entry, p: CourierPoint)
    requires IsBestFor(entries, e.key, p) && Beats(e.point, p)
    ensures IsBestFor(entries + [e], e.key, e.point)
  {
    var i :| IsBest(entries, i) && entries[i].key == e.key && entries[i].point == p;
    assert IsBest(entries + [e], |entries|);
  }

  lemma NewKeyIsBest(entries: seq<Entry>, e: Entry)
    requires e.key !in KeySet(entries, EntryKey)
    ensures IsBestFor(entries + [e], e.key, e.point)
  {
    assert forall i :: 0 <= i < |entries| ==> EntryKey(entries[i]) in KeySet(entries, EntryKey);
    assert IsBest(entries + [e], |entries|);
  }

  lemma OfferKeepsIndex(order: seq<string>, points: map<string, CourierPoint>, entries: seq<Entry>, e: Entry)
    requires Holds(order, points, entries)
    ensures e.key !in points ==> Holds(order + [e.key], points[e.key := e.point], entries + [e])
    ensures e.key in points ==>
              Holds(order, if Beats(e.point, points[e.key]) then points[e.key := e.point] else points,
                    entries + [e])
  {
    hide Beats, IsBestFor, FirstBy, KeySet;
    FirstBySnoc(entries, e, EntryKey);
    KeySetSnoc(entries, e, EntryKey);
    KeysSnoc(FirstBy(entries, EntryKey), e, EntryKey);
    forall k | k in points && (k != e.key || !Beats(e.point, points[k]))
      ensures IsBestFor(entries + [e], k, points[k])
    {
      BestSurvives(entries, e, k, points[k]);
    }
    if e.key !in points {
      NewKeyIsBest(entries, e);
    } else if Beats(e.point, points[e.key]) {
      BetterEntryIsBest(entries, e, points[e.key]);
    }
  }

  method UniqueCourierPoints(courierPoints: seq<CourierPoint>) returns (unique: seq<CourierPoint>)
    ensures IsCourierIndex(Entries(courierPoints), unique)
  {
    var pointsByAccount := new OrderedIndex();
    for i := 0 to |courierPoints|
      invariant pointsByAccount.Indexes(Entries(courierPoints[..i]))
    {
      var point := courierPoints[i];
      assert courierPoints[..i + 1][..i] == courierPoints[..i];
      TestsReadTheFields(point, point);
      if HasFinitePosition(point) {
        pointsByAccount.Offer(GetCourierPointKey(point, i), point, Entries(courierPoints[..i]));
      }
    }
    assert courierPoints[..|courierPoints|] == courierPoints;
    unique := pointsByAccount.Values(Entries(courierPoints));
  }

  // ----- What the definition gives -----

  /** The plain definition leaves no choice: the index of a stream of points is unique. */
  lemma CourierIndexIsUnique(entries: seq<Entry>, a: seq<CourierPoint>, b: seq<CourierPoint>)
    requires IsCourierIndex(entries, a) && IsCourierIndex(entries, b)
    ensures a == b
  {
    forall n | 0 <= n < |a| ensures a[n] == b[n] {
      var key := KeysInOrder(entries)[n];
      var i :| IsBest(entries, i) && entries[i].key == key && entries[i].point == a[n];
      var j :| IsBest(entries, j) && entries[j].key == key && entries[j].point == b[n];
    }
  }

  /** A courier is shown online exactly when one of its points is online. */
  lemma BestIsOnlineIff(entries: seq<Entry>, key: string, p: CourierPoint)
    requires IsBestFor(entries, key, p)
    ensures SaysOnline(p) <==> key in OnlineKeys(entries)
  {
    var i :| IsBest(entries, i) && entries[i].key == key && entries[i].point == p;
    if key in OnlineKeys(entries) {
      var j :| 0 <= j < |entries| && SaysOnline(entries[j].point) && entries[j].key == key;
      assert !Beats(entries[j].point, entries[i].point);
    }
  }

  /** Entry `j` is under the same key and in the same online state. */
  ghost predicate IsRivalOf(entries: seq<Entry>, key: string, p: CourierPoint, j: int) {
    0 <= j < |entries| && entries[j].key == key && (SaysOnline(entries[j].point) <==> SaysOnline(p))
  }

  /** The chosen point is the latest of its key among those in its own online state, and the first of those. */
  lemma BestIsLatest(entries: seq<Entry>, key: string, p: CourierPoint) returns (i: nat)
    requires IsBestFor(entries, key, p)
    ensures i < |entries| && entries[i] == Entry(key, p)
    ensures forall j :: IsRivalOf(entries, key, p, j) ==>
      && !IsSeenBefore(p, entries[j].point)
      && (j < i ==> IsSeenBefore(entries[j].point, p))
  {
    i :| IsBest(entries, i) && entries[i].key == key && entries[i].point == p;
    forall j | IsRivalOf(entries, key, p, j)
      ensures !IsSeenBefore(p, entries[j].point)
      ensures j < i ==> IsSeenBefore(entries[j].point, p)
    {
      assert !Beats(entries[j].point, entries[i].point);
    }
  }

  function OnlineCount(points: seq<CourierPoint>): nat {
    if points == [] then 0
    else OnlineCount(points[..|points| - 1]) + if IsCourierOnline(points[|points| - 1]) then 1 else 0
  }

  lemma {:induction false} CountMatchesKeys(keys: seq<string>, points: seq<CourierPoint>, online: set<string>)
    requires |keys| == |points| && Distinct(keys)
    requires forall n :: 0 <= n < |keys| ==> (SaysOnline(points[n]) <==> keys[n] in online)
    ensures OnlineCount(points) == |set k | k in keys && k in online|
  {
    if keys == [] {
    } else {
      var n := |keys| - 1;
      CountMatchesKeys(keys[..n], points[..n], online);
      TestsReadTheFields(points[n], points[n]);
      OneMoreKey(keys, online);
    }
  }

  lemma OneMoreKey(keys: seq<string>, online: set<string>)
    requires Distinct(keys) && keys != []
    ensures |set k | k in keys && k in online|
         == |set k | k in keys[..|keys| - 1] && k in online| + if keys[|keys| - 1] in online then 1 else 0
  {
    var n := |keys| - 1;
    var before, now := set k | k in keys[..n] && k in online, set k | k in keys && k in online;
    assert keys == keys[..n] + [keys[n]];
    if keys[n] in online {
      assert now == before + {keys[n]};
    } else {
      assert now == before;
    }
  }

  /** The default centre of the map, used when there is no courier to show. */
  const DEFAULT_CENTER := (-2.5489, 118.0149)

  ghost predicate IsAt(p: CourierPoint, center: (real, real)) {
    p.lat.number == Some(center.0) && p.lng.number == Some(center.1)
  }

  /** Point `n` is online and none before it is. */
  ghost predicate IsFirstOnline(points: seq<CourierPoint>, n: int) {
    && 0 <= n < |points|
    && SaysOnline(points[n])
    && forall k :: 0 <= k < n ==> !SaysOnline(points[k])
  }

  method Center(unique: seq<CourierPoint>) returns (center: (real, real))
    ensures unique == [] ==> center == (-2.5489, 118.0149)
    ensures (forall p :: p in unique ==> IsPlaced(p)) && unique != [] ==>
              if exists p :: p in unique && SaysOnline(p) then
                exists n :: IsFirstOnline(unique, n) && IsAt(unique[n], center)
              else IsAt(unique[0], center)
  {
    for i := 0 to |unique|
      invariant forall k :: 0 <= k < i ==> !(SaysOnline(unique[k]) && IsPlaced(unique[k]))
    {
      TestsReadTheFields(unique[i], unique[i]);
      if IsCourierOnline(unique[i]) && HasFinitePosition(unique[i]) {
        center := (unique[i].lat.number.value, unique[i].lng.number.value);
        assert IsAt(unique[i], center);
        assert (forall p :: p in unique ==> IsPlaced(p)) ==> IsFirstOnline(unique, i);
        return;
      }
    }
    for i := 0 to |unique|
      invariant forall k :: 0 <= k < i ==> !IsPlaced(unique[k])
    {
      TestsReadTheFields(unique[i], unique[i]);
      if HasFinitePosition(unique[i]) {
        return (unique[i].lat.number.value, unique[i].lng.number.value);
      }
    }
    return DEFAULT_CENTER;
  }

  /** The counts and the centre the map shows for a stream of points. */
  method Summarize(courierPoints: seq<CourierPoint>)
    returns (unique: seq<CourierPoint>, onlineCount: int, offlineCount: int, center: (real, real))
    ensures IsCourierIndex(Entries(courierPoints), unique)
    ensures onlineCount == |OnlineKeys(Entries(courierPoints))|
    ensures offlineCount == |KeySet(Entries(courierPoints), EntryKey) - OnlineKeys(Entries(courierPoints))|
    ensures onlineCount + offlineCount == |unique| == |KeySet(Entries(courierPoints), EntryKey)|
    ensures onlineCount > 0 ==> exists n :: IsFirstOnline(unique, n) && IsAt(unique[n], center)
    ensures onlineCount == 0 && unique != [] ==> IsAt(unique[0], center)
    ensures unique == [] ==> center == (-2.5489, 118.0149)
  {
    unique := UniqueCourierPoints(courierPoints);
    CountsAreKeyCounts(Entries(courierPoints), unique);
    IndexIsFinite(courierPoints, unique);
    onlineCount := OnlineCount(unique);
    offlineCount := if |unique| - onlineCount > 0 then |unique| - onlineCount else 0;
    center := Center(unique);
    OnlineCountIsPositiveIff(unique);
  }

  lemma {:induction false} OnlineCountIsPositiveIff(points: seq<CourierPoint>)
    ensures 0 <= OnlineCount(points) <= |points|
    ensures OnlineCount(points) > 0 <==> exists p :: p in points && SaysOnline(p)
  {
    if points == [] {
    } else {
      OnlineCountIsPositiveIff(points[..|points| - 1]);
      TestsReadTheFields(points[|points| - 1], points[|points| - 1]);
      assert points == points[..|points| - 1] + [points[|points| - 1]];
    }
  }

  /** Online and offline couriers partition the keys, so the clamp on the offline count never acts. */
  lemma CountsAreKeyCounts(entries: seq<Entry>, unique: seq<CourierPoint>)
    requires IsCourierIndex(entries, unique)
    ensures |unique| == |KeySet(entries, EntryKey)|
    ensures OnlineCount(unique) == |OnlineKeys(entries)|
    ensures |unique| - OnlineCount(unique) == |KeySet(entries, EntryKey) - OnlineKeys(entries)|
  {
    hide IsBest, FirstBy, SaysOnline;
    FirstByKeepsEachKeyOnce(entries, EntryKey);
    var keys, online := KeysInOrder(entries), OnlineKeys(entries);
    forall n | 0 <= n < |keys| ensures SaysOnline(unique[n]) <==> keys[n] in online {
      BestIsOnlineIff(entries, keys[n], unique[n]);
    }
    CountMatchesKeys(keys, unique, online);
    OnlineKeysAreKeys(entries);
  }

  lemma OnlineKeysAreKeys(entries: seq<Entry>)
    ensures OnlineKeys(entries) <= KeySet(entries, EntryKey)
    ensures (set k | k in KeysInOrder(entries) && k in OnlineKeys(entries)) == OnlineKeys(entries)
  {
    hide IsBest, FirstBy, SaysOnline;
    FirstByKeepsEachKeyOnce(entries, EntryKey);
    forall k ensures k in KeysInOrder(entries) <==> k in KeySet(entries, EntryKey) {
      KeysAndKeySet(FirstBy(entries, EntryKey), EntryKey, k);
    }
    assert forall i :: 0 <= i < |entries| ==> EntryKey(entries[i]) in KeySet(entries, EntryKey);
  }

  lemma {:induction false} EntriesAreFinite(points: seq<CourierPoint>)
    ensures forall i :: 0 <= i < |Entries(points)| ==> IsPlaced(Entries(points)[i].point)
  {
    if points == [] {
    } else {
      EntriesAreFinite(points[..|points| - 1]);
    }
  }

  /** Every indexed point can be placed, so the second position test of the centre never rejects. */
  lemma IndexIsFinite(points: seq<CourierPoint>, unique: seq<CourierPoint>)
    requires IsCourierIndex(Entries(points), unique)
    ensures forall p :: p in unique ==> IsPlaced(p)
  {
    EntriesAreFinite(points);
    forall n | 0 <= n < |unique| ensures IsPlaced(unique[n]) {
      assert IsBestFor(Entries(points), KeysInOrder(Entries(points))[n], unique[n]);
    }
  }

  // ----- Keys tell couriers apart -----

  lemma {:induction false} DecimalHasNoColon(n: nat)
    ensures ':' !in Decimal(n)
  {
    if n >= 10 { DecimalHasNoColon(n / 10); }
    assert "0123456789"[n % 10] != ':';
  }

  lemma {:induction false} DecimalIsInjective(m: nat, n: nat)
    requires Decimal(m) == Decimal(n)
    ensures m == n
  {
    var a, b := Decimal(m), Decimal(n);
    assert a[|a| - 1] == "0123456789"[m % 10] && b[|b| - 1] == "0123456789"[n % 10];
    assert m % 10 == n % 10;
    if m >= 10 && n >= 10 {
      assert a[..|a| - 1] == Decimal(m / 10) && b[..|b| - 1] == Decimal(n / 10);
      DecimalIsInjective(m / 10, n / 10);
    }
  }

  lemma LastFieldIsDetermined(u: string, a: string, v: string, b: string)
    requires u + ":" + a == v + ":" + b
    requires ':' !in a && ':' !in b
    ensures a == b
  {
    var s := u + ":" + a;
    assert s[|u|] == ':' && s[|v|] == ':';
    assert forall n :: |u| < n < |s| ==> s[n] == a[n - |u| - 1] && s[n] in a;
    assert forall n :: |v| < n < |s| ==> s[n] == b[n - |v| - 1] && s[n] in b;
    assert a == s[|u| + 1..] && b == s[|v| + 1..];
  }

  /**
   Two points of a stream share a key exactly when they name the same account, or neither names
   one and they name the same profile, or they are the same point.
   */
  lemma KeysIdentifyCouriers(points: seq<CourierPoint>, i: nat, j: nat)
    requires i < |points| && j < |points|
    ensures GetCourierPointKey(points[i], i) == GetCourierPointKey(points[j], j)
       <==> var p, q := points[i], points[j];
            if p.accountId != "" || q.accountId != "" then p.accountId == q.accountId
            else if p.courierProfileId != "" || q.courierProfileId != "" then
              p.courierProfileId == q.courierProfileId
            else i == j
  {
    var p, q := points[i], points[j];
    var x, y := GetCourierPointKey(p, i), GetCourierPointKey(q, j);
    if x == y {
      if x[0] == 'a' {
        assert p.accountId == x[8..] && q.accountId == y[8..];
      } else if x[0] == 'p' {
        assert p.courierProfileId == x[8..] && q.courierProfileId == y[8..];
      } else {
        var u, v := "coordinate:" + p.lat.text + ":" + p.lng.text, "coordinate:" + q.lat.text + ":" + q.lng.text;
        DecimalHasNoColon(i);
        DecimalHasNoColon(j);
        LastFieldIsDetermined(u, Decimal(i), v, Decimal(j));
        DecimalIsInjective(i, j);
      }
    }
  }

  // ----- The index of a whole stream -----

  /** Two points name the same account, or else the same profile, or are the same point. */
  ghost predicate SameCourier(points: seq<CourierPoint>, i: int, j: int)
    requires 0 <= i < |points| && 0 <= j < |points|
  {
    var p, q := points[i], points[j];
    if p.accountId != "" || q.accountId != "" then p.accountId == q.accountId
    else if p.courierProfileId != "" || q.courierProfileId != "" then p.courierProfileId == q.courierProfileId
    else i == j
  }

  /** Placed point `i` is the earliest of the best placed points of its courier. */
  ghost predicate IsChosen(points: seq<CourierPoint>, i: int) {
    && 0 <= i < |points| && IsPlaced(points[i])
    && forall j :: 0 <= j < |points| && IsPlaced(points[j]) && SameCourier(points, i, j) ==>
         !Beats(points[j], points[i]) && (j < i ==> Beats(points[i], points[j]))
  }

  /** Placed point `i` is the first placed one of its courier. */
  ghost predicate IsArrival(points: seq<CourierPoint>, i: int) {
    && 0 <= i < |points| && IsPlaced(points[i])
    && forall j :: 0 <= j < i && IsPlaced(points[j]) ==> !SameCourier(points, i, j)
  }

  /** The positions at which couriers arrive, in order. */
  ghost function Arrivals(points: seq<CourierPoint>): (r: seq<nat>)
    ensures forall n :: 0 <= n < |r| ==> r[n] < |points|
  {
    if points == [] then []
    else
      var n := |points| - 1;
      if IsArrival(points, n) then Arrivals(points[..n]) + [n] else Arrivals(points[..n])
  }

  /** The positions of the placed points, in order. */
  ghost function Positions(points: seq<CourierPoint>): seq<nat> {
    if points == [] then []
    else
      var n := |points| - 1;
      if IsPlaced(points[n]) then Positions(points[..n]) + [n] else Positions(points[..n])
  }

  lemma {:induction false} PositionsAscend(points: seq<CourierPoint>)
    ensures |Entries(points)| == |Positions(points)|
    ensures forall e :: 0 <= e < |Positions(points)| ==> Positions(points)[e] < |points|
    ensures forall d, e :: 0 <= d < e < |Positions(points)| ==> Positions(points)[d] < Positions(points)[e]
  {
    hide IsPlaced, GetCourierPointKey;
    if points == [] {
    } else {
      PositionsAscend(points[..|points| - 1]);
    }
  }

  /** Entry `e` is the placed point at position `e` of them. */
  lemma {:induction false} EntryIsPlaced(points: seq<CourierPoint>, e: nat)
    requires e < |Entries(points)|
    ensures |Positions(points)| == |Entries(points)| && Positions(points)[e] < |points|
    ensures var i := Positions(points)[e];
            IsPlaced(points[i]) && Entries(points)[e] == Entry(GetCourierPointKey(points[i], i), points[i])
  {
    hide IsPlaced, GetCourierPointKey;
    var n := |points| - 1;
    PositionsAscend(points);
    PositionsAscend(points[..n]);
    if e < |Entries(points[..n])| {
      EntryIsPlaced(points[..n], e);
    }
  }

  lemma {:induction false} PlacedHasEntry(points: seq<CourierPoint>, i: nat) returns (e: nat)
    requires i < |points| && IsPlaced(points[i])
    ensures |Positions(points)| == |Entries(points)| && e < |Positions(points)| && Positions(points)[e] == i
  {
    hide IsPlaced, GetCourierPointKey;
    var n := |points| - 1;
    PositionsAscend(points);
    if i == n {
      e := |Positions(points)| - 1;
    } else {
      e := PlacedHasEntry(points[..n], i);
    }
  }

  lemma SameKeyIffSameCourier(points: seq<CourierPoint>, d: nat, e: nat)
    requires d < |Entries(points)| && e < |Entries(points)|
    ensures |Positions(points)| == |Entries(points)|
    ensures Positions(points)[d] < |points| && Positions(points)[e] < |points|
    ensures Entries(points)[d].key == Entries(points)[e].key
       <==> SameCourier(points, Positions(points)[d], Positions(points)[e])
  {
    hide IsPlaced, GetCourierPointKey, SameCourier;
    EntryIsPlaced(points, d);
    EntryIsPlaced(points, e);
    KeyOfPoint(points, Positions(points)[d], Positions(points)[e]);
  }

  lemma BestAgainst(entries: seq<Entry>, e: int, d: nat)
    requires IsBest(entries, e) && d < |entries|
    ensures 0 <= e < |entries|
    ensures entries[d].key == entries[e].key ==>
      !Beats(entries[d].point, entries[e].point) && (d < e ==> Beats(entries[e].point, entries[d].point))
  {
    hide Beats;
  }

  /** The best entry of a key is the chosen point of a courier. */
  lemma BestIsChosen(points: seq<CourierPoint>, e: nat)
    requires e < |Entries(points)| && IsBest(Entries(points), e)
    ensures |Positions(points)| == |Entries(points)| && IsChosen(points, Positions(points)[e])
  {
    hide IsBest, Beats, SameCourier, IsPlaced, GetCourierPointKey, Entries, Positions;
    PositionsAscend(points);
    EntryIsPlaced(points, e);
    var i := Positions(points)[e];
    forall j | 0 <= j < |points| && IsPlaced(points[j]) && SameCourier(points, i, j)
      ensures !Beats(points[j], points[i]) && (j < i ==> Beats(points[i], points[j]))
    {
      var d := PlacedHasEntry(points, j);
      EntryIsPlaced(points, d);
      SameKeyIffSameCourier(points, e, d);
      BestAgainst(Entries(points), e, d);
    }
  }

  /** Couriers arrive in the order of the keys of the index. */
  lemma {:induction false} ArrivalsCarryKeys(points: seq<CourierPoint>)
    ensures |Arrivals(points)| == |KeysInOrder(Entries(points))|
    ensures forall n :: 0 <= n < |Arrivals(points)| ==>
      KeysInOrder(Entries(points))[n] == GetCourierPointKey(points[Arrivals(points)[n]], Arrivals(points)[n])
  {
    hide SameCourier, IsPlaced, IsArrival, GetCourierPointKey, KeySet, FirstBy, Keys;
    if points == [] {
      NoKeys();
    } else {
      var n := |points| - 1;
      ArrivalsCarryKeys(points[..n]);
      if IsPlaced(points[n]) {
        LastPointOfIndex(points);
      } else {
        assert !IsArrival(points, n) by { UnplacedIsNoArrival(points); }
      }
    }
  }

  lemma NoKeys()
    ensures KeysInOrder([]) == []
  {
  }

  lemma UnplacedIsNoArrival(points: seq<CourierPoint>)
    requires points != [] && !IsPlaced(points[|points| - 1])
    ensures !IsArrival(points, |points| - 1)
  {
  }

  lemma LastPointOfIndex(points: seq<CourierPoint>)
    requires points != [] && IsPlaced(points[|points| - 1])
    ensures var n := |points| - 1;
            KeysInOrder(Entries(points)) == KeysInOrder(Entries(points[..n]))
              + if IsArrival(points, n) then [GetCourierPointKey(points[n], n)] else []
  {
    hide SameCourier, IsPlaced, IsArrival, GetCourierPointKey, KeySet, FirstBy, Keys;
    var n := |points| - 1;
    var entries, e := Entries(points[..n]), Entry(GetCourierPointKey(points[n], n), points[n]);
    FirstBySnoc(entries, e, EntryKey);
    KeysSnoc(FirstBy(entries, EntryKey), e, EntryKey);
    ArrivalIffNewKey(points);
  }

  lemma ArrivalIffNewKey(points: seq<CourierPoint>)
    requires points != [] && IsPlaced(points[|points| - 1])
    ensures var n := |points| - 1;
            IsArrival(points, n) <==> GetCourierPointKey(points[n], n) !in KeySet(Entries(points[..n]), EntryKey)
  {
    hide SameCourier, IsPlaced, GetCourierPointKey, Entries, Positions;
    var n := |points| - 1;
    var init, key := points[..n], GetCourierPointKey(points[n], n);
    if key in KeySet(Entries(init), EntryKey) {
      var e :| 0 <= e < |Entries(init)| && EntryKey(Entries(init)[e]) == key;
      EntryIsPlaced(init, e);
      KeyOfPoint(points, n, Positions(init)[e]);
    }
    forall j | 0 <= j < n && IsPlaced(points[j]) && SameCourier(points, n, j)
      ensures key in KeySet(Entries(init), EntryKey)
    {
      var e := PlacedHasEntry(init, j);
      EntryIsPlaced(init, e);
      KeyOfPoint(points, n, j);
      assert EntryKey(Entries(init)[e]) == key;
    }
  }

  lemma KeyOfPoint(points: seq<CourierPoint>, i: nat, j: nat)
    requires i < |points| && j < |points|
    ensures GetCourierPointKey(points[i], i) == GetCourierPointKey(points[j], j) <==> SameCourier(points, i, j)
  {
    KeysIdentifyCouriers(points, i, j);
  }

  lemma ChosenFor(points: seq<CourierPoint>, key: string, p: CourierPoint) returns (i: nat)
    requires IsBestFor(Entries(points), key, p)
    ensures i < |points| && IsChosen(points, i) && points[i] == p && GetCourierPointKey(points[i], i) == key
  {
    hide IsChosen;
    var e :| IsBest(Entries(points), e) && Entries(points)[e].key == key && Entries(points)[e].point == p;
    BestIsChosen(points, e);
    EntryIsPlaced(points, e);
    i := Positions(points)[e];
  }

  /** Courier number `n` is shown by its chosen point. */
  ghost predicate IsShown(points: seq<CourierPoint>, n: nat, p: CourierPoint)
    requires n < |Arrivals(points)|
  {
    exists i :: IsChosen(points, i) && SameCourier(points, Arrivals(points)[n], i) && p == points[i]
  }

  /** The screen shows one point per courier, in order of arrival: the first of the courier's best points. */
  lemma IndexOfStream(points: seq<CourierPoint>, unique: seq<CourierPoint>)
    requires IsCourierIndex(Entries(points), unique)
    ensures |unique| == |Arrivals(points)|
    ensures forall n :: 0 <= n < |unique| ==> IsShown(points, n, unique[n])
  {
    hide SameCourier, GetCourierPointKey, IsBestFor, IsChosen;
    ArrivalsCarryKeys(points);
    forall n | 0 <= n < |unique| ensures IsShown(points, n, unique[n]) {
      var i := ChosenFor(points, KeysInOrder(Entries(points))[n], unique[n]);
      KeyOfPoint(points, Arrivals(points)[n], i);
    }
  }
}
