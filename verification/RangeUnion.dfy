/**
 * The union of time and location ranges of an MSF URL (section 11.1.1 of
 * draft-ietf-moq-msf-01). Both kinds are intervals of one ordered line: times
 * as they are, locations by group and then object.
 */
module RangeUnion {
  import opened Bytes

  datatype Interval = Interval(low: nat, high: nat)

  predicate Valid(spans: seq<Interval>) {
    forall i | 0 <= i < |spans| :: spans[i].low <= spans[i].high
  }

  predicate Covers(spans: seq<Interval>, x: nat) {
    exists i | 0 <= i < |spans| :: spans[i].low <= x <= spans[i].high
  }

  predicate InOrder(a: Interval, b: Interval) {
    a.low < b.low || (a.low == b.low && a.high <= b.high)
  }

  predicate Sorted(spans: seq<Interval>) {
    forall i, j | 0 <= i < j < |spans| :: InOrder(spans[i], spans[j])
  }

  /** Ascending, with a gap between neighbours. */
  predicate Separated(spans: seq<Interval>) {
    Valid(spans) && forall i, j | 0 <= i < j < |spans| :: spans[i].high < spans[j].low
  }

  function Max(a: nat, b: nat): nat {
    if a >= b then a else b
  }

  /** One more range: a new interval past the last end, or a longer last interval. */
  function Step(merged: seq<Interval>, r: Interval): seq<Interval> {
    if merged == [] || r.low > merged[|merged| - 1].high then merged + [r]
    else merged[|merged| - 1 := Interval(merged[|merged| - 1].low, Max(merged[|merged| - 1].high, r.high))]
  }

  function Merge(sorted: seq<Interval>): seq<Interval> {
    if sorted == [] then [] else Step(Merge(sorted[..|sorted| - 1]), sorted[|sorted| - 1])
  }

  // ---- what the union keeps

  /** A separated list whose last interval starts no later than the next range. */
  ghost predicate Ready(merged: seq<Interval>, r: Interval) {
    Separated(merged) && r.low <= r.high && (merged != [] ==> merged[|merged| - 1].low <= r.low)
  }

  lemma StepKeeps(merged: seq<Interval>, r: Interval, x: nat)
    requires Ready(merged, r)
    ensures Separated(Step(merged, r)) && Step(merged, r) != []
    ensures Step(merged, r)[|Step(merged, r)| - 1].low <= r.low
    ensures Covers(Step(merged, r), x) <==> Covers(merged, x) || r.low <= x <= r.high
  {
    hide Covers;
    var next := Step(merged, r);
    CoversLast(next, x);
    if merged != [] && r.low <= merged[|merged| - 1].high {
      CoversLast(merged, x);
      assert next[..|next| - 1] == merged[..|merged| - 1];
    } else {
      assert next[..|next| - 1] == merged;
    }
  }

  /** Merging sorted ranges covers the same points with separated ranges. */
  lemma {:induction false} MergeKeeps(sorted: seq<Interval>, x: nat)
    requires Sorted(sorted) && Valid(sorted)
    ensures Separated(Merge(sorted)) && (Covers(Merge(sorted), x) <==> Covers(sorted, x))
    ensures sorted != [] ==> Merge(sorted) != [] && Merge(sorted)[|Merge(sorted)| - 1].low <= sorted[|sorted| - 1].low
  {
    if sorted != [] {
      hide Step, Separated;
      var n := |sorted| - 1;
      MergeKeeps(sorted[..n], x);
      assert n > 0 ==> InOrder(sorted[n - 1], sorted[n]);
      if n == 0 {
        NothingMerged();
      }
      StepKeeps(Merge(sorted[..n]), sorted[n], x);
      CoversLast(sorted, x);
    }
  }

  lemma NothingMerged()
    ensures Merge([]) == [] && Separated([])
  {
  }

  lemma CoversLast(spans: seq<Interval>, x: nat)
    requires spans != []
    ensures Covers(spans, x) <==> Covers(spans[..|spans| - 1], x) || spans[|spans| - 1].low <= x <= spans[|spans| - 1].high
  {
    var n := |spans| - 1;
    if Covers(spans[..n], x) {
      var i :| 0 <= i < n && spans[..n][i].low <= x <= spans[..n][i].high;
      assert spans[i].low <= x <= spans[i].high;
    }
    if Covers(spans, x) {
      var i :| 0 <= i < |spans| && spans[i].low <= x <= spans[i].high;
      assert i < n ==> spans[..n][i].low <= x <= spans[..n][i].high;
    }
  }

  /** Separated ranges are merged already. */
  lemma {:induction false} MergeIdentity(spans: seq<Interval>)
    requires Separated(spans)
    ensures Merge(spans) == spans
  {
    if spans != [] {
      hide Step, Separated;
      var n := |spans| - 1;
      SeparatedFront(spans);
      MergeIdentity(spans[..n]);
      StepApart(spans[..n], spans[n]);
      assert spans == spans[..n] + [spans[n]];
    }
  }

  lemma SeparatedFront(spans: seq<Interval>)
    requires Separated(spans) && spans != []
    ensures var n := |spans| - 1; Separated(spans[..n]) && (n > 0 ==> spans[n - 1].high < spans[n].low)
  {
  }

  lemma StepApart(merged: seq<Interval>, r: Interval)
    requires merged != [] ==> merged[|merged| - 1].high < r.low
    ensures Step(merged, r) == merged + [r]
  {
  }

  // ---- sorting

  function Keys<R>(rs: seq<R>, key: R -> Interval): seq<Interval> {
    seq(|rs|, i requires 0 <= i < |rs| => key(rs[i]))
  }

  function Inserted<T>(s: seq<T>, t: T, p: nat): seq<T>
    requires p <= |s|
  {
    s[..p] + [t] + s[p..]
  }

  lemma InsertedSorted(ks: seq<Interval>, k: Interval, p: nat)
    requires Sorted(ks) && p <= |ks| && (p > 0 ==> InOrder(ks[p - 1], k)) && (p < |ks| ==> InOrder(k, ks[p]))
    ensures Sorted(Inserted(ks, k, p))
  {
    var s := Inserted(ks, k, p);
    forall i, j | 0 <= i < j < |s|
      ensures InOrder(s[i], s[j])
    {
      var a, b := if i < p then i else i - 1, if j < p then j else j - 1;
      if i == p {
        assert b > p ==> InOrder(ks[p], ks[b]);
      } else if j == p {
        assert a < p - 1 ==> InOrder(ks[a], ks[p - 1]);
      } else {
        assert InOrder(ks[a], ks[b]);
      }
    }
  }

  lemma InsertedCovers(ks: seq<Interval>, k: Interval, p: nat, x: nat)
    requires p <= |ks|
    ensures Covers(Inserted(ks, k, p), x) <==> Covers(ks, x) || k.low <= x <= k.high
    ensures Valid(Inserted(ks, k, p)) <==> Valid(ks) && k.low <= k.high
  {
    hide Covers, Valid;
    var a, b := ks[..p], ks[p..];
    assert ks == a + b;
    CoversConcat(a, b, x);
    CoversConcat(a, [k], x);
    CoversConcat(a + [k], b, x);
    CoversOne(k, x);
  }

  lemma CoversOne(k: Interval, x: nat)
    ensures Covers([k], x) <==> k.low <= x <= k.high
    ensures Valid([k]) <==> k.low <= k.high
  {
    assert [k][0] == k;
  }

  lemma CoversConcat(a: seq<Interval>, b: seq<Interval>, x: nat)
    ensures Covers(a + b, x) <==> Covers(a, x) || Covers(b, x)
    ensures Valid(a + b) <==> Valid(a) && Valid(b)
  {
    var s := a + b;
    assert forall i | 0 <= i < |a| :: s[i] == a[i];
    assert forall i | 0 <= i < |b| :: s[|a| + i] == b[i];
    if Covers(a, x) {
      var i :| 0 <= i < |a| && a[i].low <= x <= a[i].high;
      assert s[i].low <= x <= s[i].high;
    }
    if Covers(b, x) {
      var i :| 0 <= i < |b| && b[i].low <= x <= b[i].high;
      assert s[|a| + i].low <= x <= s[|a| + i].high;
    }
    if Covers(s, x) {
      var i :| 0 <= i < |s| && s[i].low <= x <= s[i].high;
      assert i >= |a| ==> b[i - |a|].low <= x <= b[i - |a|].high;
    }
  }

  /** A list in order is not changed by inserting at its end. */
  ghost predicate SortOf<R>(rs: seq<R>, sorted: seq<R>, key: R -> Interval) {
    multiset(sorted) == multiset(rs) && Sorted(Keys(sorted, key)) &&
    (Valid(Keys(rs, key)) ==> Valid(Keys(sorted, key))) &&
    (forall x: nat :: Covers(Keys(sorted, key), x) <==> Covers(Keys(rs, key), x)) &&
    (Separated(Keys(rs, key)) ==> sorted == rs)
  }

  /** Ranges in key order; ranges with equal keys in any order. */
  method SortByKey<R(==)>(rs: seq<R>, key: R -> Interval) returns (sorted: seq<R>)
    ensures SortOf(rs, sorted, key)
  {
    hide SortOf;
    sorted := [];
    SortNothing(key);
    assert rs[..0] == [];
    for i := 0 to |rs|
      invariant SortOf(rs[..i], sorted, key)
    {
      assert rs[..i + 1] == rs[..i] + [rs[i]];
      IsSorted(rs[..i], sorted, key);
      var p := FindPlace(sorted, rs[i], key);
      SortStep(rs[..i], sorted, rs[i], key, p);
      sorted := sorted[..p] + [rs[i]] + sorted[p..];
    }
    assert rs[..|rs|] == rs;
  }

  lemma SortNothing<R>(key: R -> Interval)
    ensures SortOf([], [], key)
  {
  }

  lemma IsSorted<R>(rs: seq<R>, sorted: seq<R>, key: R -> Interval)
    requires SortOf(rs, sorted, key)
    ensures Sorted(Keys(sorted, key))
  {
  }

  /** The last place the range can go. */
  method FindPlace<R>(sorted: seq<R>, r: R, key: R -> Interval) returns (p: nat)
    requires Sorted(Keys(sorted, key))
    ensures p <= |sorted| && (p > 0 ==> InOrder(key(sorted[p - 1]), key(r))) && (p < |sorted| ==> InOrder(key(r), key(sorted[p])))
    ensures sorted != [] && key(sorted[|sorted| - 1]).low < key(r).low ==> p == |sorted|
  {
    p := |sorted|;
    while p > 0 && !InOrder(key(sorted[p - 1]), key(r))
      invariant 0 <= p <= |sorted| && (p < |sorted| ==> InOrder(key(r), key(sorted[p])))
      invariant sorted != [] && key(sorted[|sorted| - 1]).low < key(r).low ==> p == |sorted|
    {
      p := p - 1;
    }
  }

  lemma KeysInserted<R>(s: seq<R>, r: R, key: R -> Interval, p: nat)
    requires p <= |s|
    ensures |Keys(s, key)| == |s| && Keys(Inserted(s, r, p), key) == Inserted(Keys(s, key), key(r), p)
  {
  }

  lemma SortStep<R>(rs: seq<R>, sorted: seq<R>, r: R, key: R -> Interval, p: nat)
    requires SortOf(rs, sorted, key) && p <= |sorted|
    requires (p > 0 ==> InOrder(key(sorted[p - 1]), key(r))) && (p < |sorted| ==> InOrder(key(r), key(sorted[p])))
    requires sorted != [] && key(sorted[|sorted| - 1]).low < key(r).low ==> p == |sorted|
    ensures SortOf(rs + [r], Inserted(sorted, r, p), key)
  {
    hide Sorted, Valid, Covers, Keys, InOrder, Inserted;
    KeysInserted(sorted, r, key, p);
    KeysInserted(rs, r, key, |rs|);
    InsertedIs(rs, r, |rs|);
    InsertedIs(sorted, r, p);
    PlaceInKeys(sorted, r, key, p);
    InsertedSorted(Keys(sorted, key), key(r), p);
    forall x: nat
      ensures Covers(Keys(Inserted(sorted, r, p), key), x) <==> Covers(Keys(rs + [r], key), x)
    {
      InsertedCovers(Keys(sorted, key), key(r), p, x);
      InsertedCovers(Keys(rs, key), key(r), |rs|, x);
    }
    InsertedCovers(Keys(sorted, key), key(r), p, 0);
    InsertedCovers(Keys(rs, key), key(r), |rs|, 0);
    if Separated(Keys(rs + [r], key)) {
      SeparatedPrefix(rs, r, key);
      assert sorted == rs && p == |sorted|;
    }
  }

  lemma InsertedIs<R>(s: seq<R>, r: R, p: nat)
    requires p <= |s|
    ensures multiset(Inserted(s, r, p)) == multiset(s) + multiset{r}
    ensures p == |s| ==> Inserted(s, r, p) == s + [r]
  {
    assert s == s[..p] + s[p..];
  }

  lemma PlaceInKeys<R>(s: seq<R>, r: R, key: R -> Interval, p: nat)
    requires p <= |s|
    requires (p > 0 ==> InOrder(key(s[p - 1]), key(r))) && (p < |s| ==> InOrder(key(r), key(s[p])))
    ensures |Keys(s, key)| == |s| && (p > 0 ==> InOrder(Keys(s, key)[p - 1], key(r))) &&
      (p < |s| ==> InOrder(key(r), Keys(s, key)[p]))
  {
  }

  lemma SeparatedPrefix<R>(rs: seq<R>, r: R, key: R -> Interval)
    requires Separated(Keys(rs + [r], key))
    ensures Separated(Keys(rs, key)) && (rs != [] ==> key(rs[|rs| - 1]).low < key(r).low)
  {
    var all := Keys(rs + [r], key);
    assert forall i | 0 <= i < |rs| :: Keys(rs, key)[i] == all[i];
    if rs != [] {
      assert all[|rs| - 1].high < all[|rs|].low && all[|rs| - 1].low <= all[|rs| - 1].high;
      assert all[|rs| - 1] == key(rs[|rs| - 1]);
    }
  }

  // ---- time ranges

  datatype TimeRange = TimeRange(start: nat, end: Option<nat>)

  function TimeEnd(r: TimeRange): nat {
    if r.end.Some? then r.end.value else MaxU64
  }

  function TimeKey(r: TimeRange): Interval {
    Interval(r.start, TimeEnd(r))
  }

  /** The in-place update of the last merged range. */
  lemma KeysUpdated<R>(merged: seq<R>, last: R, key: R -> Interval)
    requires merged != []
    ensures |Keys(merged, key)| == |merged| && Keys(merged, key)[|merged| - 1] == key(merged[|merged| - 1])
    ensures Keys(merged[|merged| - 1 := last], key) == Keys(merged, key)[|merged| - 1 := key(last)]
    ensures Keys(merged + [last], key) == Keys(merged, key) + [key(last)]
  {
  }

  lemma MergeStep(keys: seq<Interval>, i: nat)
    requires i < |keys|
    ensures Merge(keys[..i + 1]) == Step(Merge(keys[..i]), keys[i])
  {
    assert keys[..i + 1][..i] == keys[..i];
  }

  lemma Neighbours(keys: seq<Interval>, i: nat)
    requires 0 < i < |keys| && Separated(keys)
    ensures keys[i - 1].high < keys[i].low
  {
  }

  /** The loop body: a new last range, or a later end for the last one. */
  method AddTimeRange(merged0: seq<TimeRange>, r: TimeRange) returns (merged: seq<TimeRange>)
    requires merged0 != []
    ensures merged != [] && Keys(merged, TimeKey) == Step(Keys(merged0, TimeKey), TimeKey(r))
    ensures TimeKey(merged0[|merged0| - 1]).high < TimeKey(r).low ==> merged == merged0 + [r]
  {
    hide Keys;
    var last := merged0[|merged0| - 1];
    KeysUpdated(merged0, r, TimeKey);
    var lastEnd := TimeEnd(last);
    if r.start > lastEnd {
      return merged0 + [r];
    }
    var combined := Max(lastEnd, TimeEnd(r));
    last := last.(end := if combined == MaxU64 then None else Some(combined));
    KeysUpdated(merged0, last, TimeKey);
    merged := merged0[|merged0| - 1 := last];
  }

  /** `union_time_ranges`. */
  method UnionTimeRanges(ranges: seq<TimeRange>) returns (merged: seq<TimeRange>)
    requires Valid(Keys(ranges, TimeKey))
    ensures Separated(Keys(merged, TimeKey))
    ensures forall x: nat :: Covers(Keys(merged, TimeKey), x) <==> Covers(Keys(ranges, TimeKey), x)
    ensures Separated(Keys(ranges, TimeKey)) ==> merged == ranges
  {
    hide Merge, SortOf, Separated, Covers, Valid, Keys, Step, TimeKey;
    if |ranges| <= 1 {
      ShortUnion(ranges, TimeKey);
      return ranges;
    }
    var sorted := SortByKey(ranges, TimeKey);
    ghost var keys := Keys(sorted, TimeKey);
    SameLength(ranges, sorted, TimeKey);
    merged := [sorted[0]];
    MergeOne(sorted, TimeKey);
    for i := 1 to |sorted|
      invariant merged != [] && Keys(merged, TimeKey) == Merge(keys[..i])
      invariant Separated(keys) ==> merged == sorted[..i]
    {
      MergeStep(keys, i);
      if Separated(keys) {
        Neighbours(keys, i);
      }
      merged := AddTimeRange(merged, sorted[i]);
    }
    assert keys[..|sorted|] == keys && sorted[..|sorted|] == sorted;
    UnionKeeps(ranges, sorted, TimeKey);
  }

  lemma ShortUnion<R>(ranges: seq<R>, key: R -> Interval)
    requires |ranges| <= 1 && Valid(Keys(ranges, key))
    ensures Separated(Keys(ranges, key))
  {
  }

  lemma SameLength<R>(rs: seq<R>, sorted: seq<R>, key: R -> Interval)
    requires SortOf(rs, sorted, key)
    ensures |sorted| == |rs| == |Keys(sorted, key)| && forall i | 0 <= i < |sorted| :: Keys(sorted, key)[i] == key(sorted[i])
  {
    assert |multiset(sorted)| == |multiset(rs)|;
  }

  lemma MergeOne<R>(sorted: seq<R>, key: R -> Interval)
    requires sorted != []
    ensures Keys([sorted[0]], key) == Merge(Keys(sorted, key)[..1]) && [sorted[0]] == sorted[..1]
  {
    var keys := Keys(sorted, key);
    assert keys[..1][..0] == [];
    assert Merge([]) == [];
    assert Keys([sorted[0]], key) == [keys[0]];
  }

  /** The union theorem for any sorted arrangement of the ranges. */
  lemma UnionKeeps<R>(ranges: seq<R>, sorted: seq<R>, key: R -> Interval)
    requires SortOf(ranges, sorted, key) && Valid(Keys(ranges, key))
    ensures Separated(Merge(Keys(sorted, key)))
    ensures forall x: nat :: Covers(Merge(Keys(sorted, key)), x) <==> Covers(Keys(ranges, key), x)
    ensures Separated(Keys(ranges, key)) ==> sorted == ranges && Separated(Keys(sorted, key))
  {
    hide Merge, Separated, Covers, Valid, Keys, Sorted;
    MergeKeeps(Keys(sorted, key), 0);
    forall x: nat
      ensures Covers(Merge(Keys(sorted, key)), x) <==> Covers(Keys(ranges, key), x)
    {
      MergeKeeps(Keys(sorted, key), x);
    }
  }

  // ---- location ranges

  datatype Location = Location(group: nat, id: Option<nat>)

  datatype LocationRange = LocationRange(start: Location, end: Option<Location>)

  const Open := TwoTo64 * TwoTo64 - 1

  /** Group and object on one line; an absent object opens its group. */
  function StartKey(l: Location): nat {
    l.group * TwoTo64 + if l.id.Some? then l.id.value else 0
  }

  /** An absent object closes its group, an absent location is the end of the line. */
  function EndKey(l: Option<Location>): nat {
    if l.None? then Open
    else l.value.group * TwoTo64 + if l.value.id.Some? then l.value.id.value else MaxU64
  }

  function LocationKey(r: LocationRange): Interval {
    Interval(StartKey(r.start), EndKey(r.end))
  }

  /** The line is the lexicographic order of 64-bit pairs. */
  lemma KeyIsLexicographic(g: nat, o: nat, h: nat, p: nat)
    requires g <= MaxU64 && o <= MaxU64 && h <= MaxU64 && p <= MaxU64
    ensures g * TwoTo64 + o < h * TwoTo64 + p <==> g < h || (g == h && o < p)
    ensures g * TwoTo64 + o <= Open
  {
  }

  ghost predicate Bounded(r: LocationRange) {
    r.start.group <= MaxU64 && (r.start.id.Some? ==> r.start.id.value <= MaxU64) &&
    (r.end.Some? ==> r.end.value.group <= MaxU64 && (r.end.value.id.Some? ==> r.end.value.id.value <= MaxU64))
  }

  method AddLocationRange(merged0: seq<LocationRange>, r: LocationRange) returns (merged: seq<LocationRange>)
    requires merged0 != []
    ensures merged != [] && Keys(merged, LocationKey) == Step(Keys(merged0, LocationKey), LocationKey(r))
    ensures LocationKey(merged0[|merged0| - 1]).high < LocationKey(r).low ==> merged == merged0 + [r]
  {
    hide Keys, StartKey, EndKey;
    var last := merged0[|merged0| - 1];
    KeysUpdated(merged0, r, LocationKey);
    var lastEnd := EndKey(last.end);
    if StartKey(r.start) > lastEnd {
      return merged0 + [r];
    }
    var candidate := EndKey(r.end);
    KeysUpdated(merged0, last, LocationKey);
    if candidate <= lastEnd {
      assert merged0[|merged0| - 1 := last] == merged0;
      return merged0;
    }
    OpenEnd();
    last := last.(end := if candidate == Open then None else r.end);
    KeysUpdated(merged0, last, LocationKey);
    merged := merged0[|merged0| - 1 := last];
  }

  /** `union_location_ranges`. */
  method UnionLocationRanges(ranges: seq<LocationRange>) returns (merged: seq<LocationRange>)
    requires Valid(Keys(ranges, LocationKey)) && forall r | r in ranges :: Bounded(r)
    ensures Separated(Keys(merged, LocationKey))
    ensures forall x: nat :: Covers(Keys(merged, LocationKey), x) <==> Covers(Keys(ranges, LocationKey), x)
    ensures Separated(Keys(ranges, LocationKey)) ==> merged == ranges
  {
    hide Merge, SortOf, Separated, Covers, Valid, Keys, Step, LocationKey;
    if |ranges| <= 1 {
      ShortUnion(ranges, LocationKey);
      return ranges;
    }
    var sorted := SortByKey(ranges, LocationKey);
    ghost var keys := Keys(sorted, LocationKey);
    SameLength(ranges, sorted, LocationKey);
    merged := [sorted[0]];
    MergeOne(sorted, LocationKey);
    for i := 1 to |sorted|
      invariant merged != [] && Keys(merged, LocationKey) == Merge(keys[..i])
      invariant Separated(keys) ==> merged == sorted[..i]
    {
      MergeStep(keys, i);
      if Separated(keys) {
        Neighbours(keys, i);
      }
      merged := AddLocationRange(merged, sorted[i]);
    }
    assert keys[..|sorted|] == keys && sorted[..|sorted|] == sorted;
    UnionKeeps(ranges, sorted, LocationKey);
  }

  lemma OpenEnd()
    ensures EndKey(None) == Open
  {
  }
}
