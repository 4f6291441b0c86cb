/**
 * The queue as the source runs it: fields updated in place, the measuring loop
 * with its saturating 64-bit arithmetic, the boundary search and the shed loop.
 */
module LiveMediaQueue {
  import opened Bytes
  import opened LiveMedia

  datatype Bounds = Bounds(bytes: nat, duration: nat, bytesOverflow: bool, timeOverflow: bool)

  predicate WithinLimits(b: Bounds, maxBytes: nat, maxDuration: nat) {
    !b.bytesOverflow && !b.timeOverflow && b.bytes <= maxBytes && b.duration <= maxDuration
  }

  /** What `measure` reports about a content. */
  ghost predicate Measures(b: Bounds, entries: seq<Entry>) {
    (b.bytesOverflow <==> TotalBytes(entries) > MaxU64) && (!b.bytesOverflow ==> b.bytes == TotalBytes(entries)) &&
    (b.timeOverflow <==> exists e | e in entries :: e.role.Media? && End(e.fragment) > MaxU64) &&
    (!b.timeOverflow ==> IsSpan(entries, b.duration))
  }

  /** The measured bounds decide exactly whether the content fits. */
  lemma MeasureDecides(b: Bounds, entries: seq<Entry>, maxBytes: nat, maxDuration: nat)
    requires Measures(b, entries) && maxBytes <= MaxU64 && maxDuration <= MaxI64
    ensures WithinLimits(b, maxBytes, maxDuration) <==> Fits(maxBytes, maxDuration, entries)
  {
    if !b.timeOverflow && exists e | e in entries :: e.role.Media? {
      var a, z :| a in entries && z in entries && a.role.Media? && z.role.Media? && Earliest(entries, a) &&
        Latest(entries, z) &&
        b.duration == (if End(z.fragment) - a.fragment.start > MaxI64 then MaxI64 else End(z.fragment) - a.fragment.start);
    }
  }

  /** The byte accumulators of `measure` after the entries seen so far. */
  ghost predicate BytesSoFar(entries: seq<Entry>, bytes: nat, overflow: bool) {
    (overflow <==> TotalBytes(entries) > MaxU64) && (!overflow ==> bytes == TotalBytes(entries)) && bytes <= MaxU64
  }

  ghost predicate SomeLate(entries: seq<Entry>) {
    exists e | e in entries :: e.role.Media? && End(e.fragment) > MaxU64
  }

  ghost predicate IsFirst(entries: seq<Entry>, first: Option<nat>) {
    match first
    case None => forall e | e in entries :: e.role.Initialization?
    case Some(t) => exists a | a in entries :: a.role.Media? && a.fragment.start == t && Earliest(entries, a)
  }

  ghost predicate IsLast(entries: seq<Entry>, last: nat) {
    (exists z | z in entries :: z.role.Media? && End(z.fragment) == last && Latest(entries, z)) ||
    (last == 0 && forall e | e in entries :: e.role.Initialization?)
  }

  /** The time accumulators of `measure`: past 64 bits, the end stays saturated. */
  ghost predicate TimesSoFar(entries: seq<Entry>, first: Option<nat>, last: nat, late: bool) {
    (late <==> SomeLate(entries)) && IsFirst(entries, first) && last <= MaxU64 &&
    if late then last == MaxU64 else IsLast(entries, last)
  }

  lemma SoFarMeasures(entries: seq<Entry>, bytes: nat, overflow: bool, first: Option<nat>, last: nat, late: bool,
                      duration: nat)
    requires BytesSoFar(entries, bytes, overflow) && TimesSoFar(entries, first, last, late)
    requires duration == if first.None? then 0 else if last - first.value > MaxI64 then MaxI64 else last - first.value
    ensures Measures(Bounds(bytes, duration, overflow, late), entries)
  {
    hide TotalBytes;
    if !late && first.Some? {
      var a :| a in entries && a.role.Media? && a.fragment.start == first.value && Earliest(entries, a);
      var z :| z in entries && z.role.Media? && End(z.fragment) == last && Latest(entries, z);
    }
  }

  function EarlierOf(first: Option<nat>, t: nat): Option<nat> {
    Some(if first.Some? && first.value <= t then first.value else t)
  }

  function SaturatedEnd(f: Fragment): nat {
    if f.duration > MaxU64 - f.start then MaxU64 else f.start + f.duration
  }

  lemma BytesStep(entries: seq<Entry>, e: Entry, bytes: nat, overflow: bool)
    requires BytesSoFar(entries, bytes, overflow)
    ensures var over := e.fragment.size > MaxU64 - bytes;
      BytesSoFar(entries + [e], if over then bytes else bytes + e.fragment.size, overflow || over)
  {
    TotalOfAppend(entries, e);
  }

  lemma Appended(entries: seq<Entry>, e: Entry)
    ensures forall x :: x in entries + [e] <==> x in entries || x == e
  {
  }

  lemma FirstStep(entries: seq<Entry>, e: Entry, first: Option<nat>)
    requires IsFirst(entries, first)
    ensures IsFirst(entries + [e], if e.role.Media? then EarlierOf(first, e.fragment.start) else first)
  {
    Appended(entries, e);
    if first.Some? {
      var a :| a in entries && a.role.Media? && a.fragment.start == first.value && Earliest(entries, a);
      assert Earliest(entries + [e], a) || (e.role.Media? && Earliest(entries + [e], e));
    } else if e.role.Media? {
      assert Earliest(entries + [e], e);
    }
  }

  lemma LastStep(entries: seq<Entry>, e: Entry, last: nat)
    requires IsLast(entries, last)
    ensures IsLast(entries + [e], if e.role.Initialization? || last >= End(e.fragment) then last else End(e.fragment))
  {
    Appended(entries, e);
    if z :| z in entries && z.role.Media? && End(z.fragment) == last && Latest(entries, z) {
      assert Latest(entries + [e], z) || (e.role.Media? && Latest(entries + [e], e));
    } else if e.role.Media? {
      assert Latest(entries + [e], e);
    }
  }

  lemma TimesStep(entries: seq<Entry>, e: Entry, first: Option<nat>, last: nat, late: bool)
    requires TimesSoFar(entries, first, last, late)
    ensures e.role.Initialization? ==> TimesSoFar(entries + [e], first, last, late)
    ensures e.role.Media? ==>
      TimesSoFar(entries + [e], EarlierOf(first, e.fragment.start),
                 if last >= SaturatedEnd(e.fragment) then last else SaturatedEnd(e.fragment),
                 late || e.fragment.duration > MaxU64 - e.fragment.start)
  {
    hide IsFirst, IsLast;
    Appended(entries, e);
    FirstStep(entries, e, first);
    if !late {
      LastStep(entries, e, last);
    }
  }

  /** The entries `measure` counts: all of them, or those a boundary would keep. */
  ghost function Counted(entries: seq<Entry>, boundary: Option<nat>, videoTracks: set<string>): seq<Entry> {
    if boundary.Some? then Retained(entries, boundary.value, videoTracks) else entries
  }

  lemma CountedStep(entries: seq<Entry>, i: nat, boundary: Option<nat>, videoTracks: set<string>)
    requires i < |entries|
    ensures boundary.Some? ==>
      StartedAfter(entries[..i + 1], boundary.value, videoTracks) ==
      Started(entries[i], boundary.value, videoTracks, StartedAfter(entries[..i], boundary.value, videoTracks))
    ensures Counted(entries[..i + 1], boundary, videoTracks) == Counted(entries[..i], boundary, videoTracks) +
      if boundary.None? || Keeps(entries[i], boundary.value, videoTracks,
                                 StartedAfter(entries[..i], boundary.value, videoTracks)) then [entries[i]] else []
  {
    hide Retained, StartedAfter;
    OneMore(entries, i, if boundary.Some? then boundary.value else 0, videoTracks);
  }

  lemma NothingCounted(entries: seq<Entry>, boundary: Option<nat>, videoTracks: set<string>)
    ensures Counted(entries[..0], boundary, videoTracks) == [] && Counted(entries[..|entries|], boundary, videoTracks) ==
      Counted(entries, boundary, videoTracks)
    ensures boundary.Some? ==> StartedAfter(entries[..0], boundary.value, videoTracks) == {}
    ensures BytesSoFar([], 0, false) && TimesSoFar([], None, 0, false)
  {
    assert entries[..|entries|] == entries;
  }

  lemma CountedAreValid(entries: seq<Entry>, boundary: Option<nat>, videoTracks: set<string>)
    requires ValidEntries(entries)
    ensures ValidEntries(Counted(entries, boundary, videoTracks))
  {
  }

  /** `measure`. */
  method Measure(entries: seq<Entry>, boundary: Option<nat>, videoTracks: set<string>) returns (b: Bounds)
    requires ValidEntries(entries)
    ensures Measures(b, Counted(entries, boundary, videoTracks))
  {
    hide Counted, BytesSoFar, TimesSoFar, Measures, StartedAfter, Started, Keeps, EarlierOf, SaturatedEnd;
    var bytes: nat, overflow, last: nat, late := 0, false, 0, false;
    var first: Option<nat> := None;
    var started: set<string> := {};
    ghost var kept: seq<Entry> := [];
    NothingCounted(entries, boundary, videoTracks);
    for i := 0 to |entries|
      invariant boundary.Some? ==> started == StartedAfter(entries[..i], boundary.value, videoTracks)
      invariant kept == Counted(entries[..i], boundary, videoTracks) && bytes <= MaxU64
      invariant BytesSoFar(kept, bytes, overflow) && TimesSoFar(kept, first, last, late)
    {
      var e := entries[i];
      CountedStep(entries, i, boundary, videoTracks);
      if boundary.Some? {
        var keep := Keeps(e, boundary.value, videoTracks, started);
        started := Started(e, boundary.value, videoTracks, started);
        if !keep {
          continue;
        }
      }
      BytesStep(kept, e, bytes, overflow);
      TimesStep(kept, e, first, last, late);
      kept := kept + [e];
      bytes, overflow, first, last, late := AddEntry(e, bytes, overflow, first, last, late);
    }
    CountedAreValid(entries, boundary, videoTracks);
    var duration := 0;
    SpanIsOrdered(kept, first, last, late);
    if first.Some? {
      var span := last - first.value;
      duration := if span > MaxI64 then MaxI64 else span;
    }
    SoFarMeasures(kept, bytes, overflow, first, last, late, duration);
    b := Bounds(bytes, duration, overflow, late);
  }

  lemma SpanIsOrdered(entries: seq<Entry>, first: Option<nat>, last: nat, late: bool)
    requires TimesSoFar(entries, first, last, late) && ValidEntries(entries)
    ensures first.Some? ==> first.value <= last
  {
  }

  lemma OneMore(entries: seq<Entry>, i: nat, b: nat, tracks: set<string>)
    requires i < |entries|
    ensures entries[..i + 1] == entries[..i] + [entries[i]]
    ensures StartedAfter(entries[..i + 1], b, tracks) == Started(entries[i], b, tracks, StartedAfter(entries[..i], b, tracks))
    ensures Retained(entries[..i + 1], b, tracks) == Retained(entries[..i], b, tracks) +
      if Keeps(entries[i], b, tracks, StartedAfter(entries[..i], b, tracks)) then [entries[i]] else []
  {
    assert entries[..i + 1][..i] == entries[..i];
  }

  /** The body of the measuring loop for a counted entry. */
  method AddEntry(e: Entry, bytes: nat, overflow: bool, first: Option<nat>, last: nat, late: bool)
    returns (bytes': nat, overflow': bool, first': Option<nat>, last': nat, late': bool)
    requires ValidFragment(e.fragment) && bytes <= MaxU64
    ensures var over := e.fragment.size > MaxU64 - bytes;
      bytes' == (if over then bytes else bytes + e.fragment.size) && overflow' == (overflow || over)
    ensures e.role.Initialization? ==> first' == first && last' == last && late' == late
    ensures e.role.Media? ==>
      first' == EarlierOf(first, e.fragment.start) && (late' <==> late || e.fragment.duration > MaxU64 - e.fragment.start) &&
      last' == (if last >= SaturatedEnd(e.fragment) then last else SaturatedEnd(e.fragment))
    ensures bytes' <= MaxU64
  {
    bytes', overflow', first', last', late' := bytes, overflow, first, last, late;
    if e.fragment.size > MaxU64 - bytes {
      overflow' := true;
    } else {
      bytes' := bytes + e.fragment.size;
    }
    if e.role.Initialization? {
      return;
    }
    first' := Some(if first.Some? && first.value <= e.fragment.start then first.value else e.fragment.start);
    var past := e.fragment.duration > MaxU64 - e.fragment.start;
    late' := late || past;
    var end := if past then MaxU64 else e.fragment.start + e.fragment.duration;
    last' := if last >= end then last else end;
  }

  ghost predicate Ascending(ts: seq<nat>) {
    forall i, j | 0 <= i < j < |ts| :: ts[i] < ts[j]
  }

  /** Insertion into the ordered set of timestamps. */
  method Insert(ts: seq<nat>, t: nat) returns (r: seq<nat>)
    requires Ascending(ts)
    ensures Ascending(r) && forall x: nat :: x in r <==> x in ts || x == t
  {
    var i := 0;
    while i < |ts| && ts[i] < t
      invariant 0 <= i <= |ts| && forall k | 0 <= k < i :: ts[k] < t
    {
      i := i + 1;
    }
    if i < |ts| && ts[i] == t {
      return ts;
    }
    r := ts[..i] + [t] + ts[i..];
    assert forall x: nat :: x in r <==> x in ts[..i] || x == t || x in ts[i..];
    assert ts == ts[..i] + ts[i..];
  }

  method KeyTimestamps(entries: seq<Entry>) returns (ts: seq<nat>)
    ensures Ascending(ts) && forall t: nat :: t in ts <==> t in KeyTimes(entries)
  {
    ts := [];
    for i := 0 to |entries|
      invariant Ascending(ts) && forall t: nat :: t in ts <==> t in KeyTimes(entries[..i])
    {
      var e := entries[i];
      assert entries[..i + 1] == entries[..i] + [e];
      KeyTimesAppend(entries[..i], e);
      if e.role.Media? && e.fragment.keyframe {
        ts := Insert(ts, e.fragment.start);
      }
    }
    assert entries[..|entries|] == entries;
  }

  lemma KeyTimesAppend(entries: seq<Entry>, e: Entry)
    ensures KeyTimes(entries + [e]) ==
      KeyTimes(entries) + if e.role.Media? && e.fragment.keyframe then {e.fragment.start} else {}
  {
    assert forall x | x in entries + [e] :: x in entries || x == e;
    assert forall x | x in entries :: x in entries + [e];
    assert (entries + [e])[|entries|] == e;
  }

  class LiveMediaQueue {
    const maxBytes: nat
    const maxDuration: nat
    var entries: seq<Entry>
    var videoTracks: set<string>
    var awaiting: set<string>
    var boundary: Option<nat>
    var queuedBytes: nat
    var queuedDuration: nat
    var eof: bool
    var exceeded: bool

    ghost function Model(): Queue
      reads this
    {
      Queue(maxBytes, maxDuration, entries, videoTracks, awaiting, boundary, exceeded)
    }

    /** The model is valid and the cached counters are what a recount of the content gives. */
    ghost predicate Valid()
      reads this
    {
      Model().Valid() && queuedBytes == TotalBytes(entries) && IsSpan(entries, queuedDuration)
    }

    constructor (maxBytes: nat, maxDuration: nat)
      requires maxBytes <= MaxU64 && maxDuration <= MaxI64
      ensures Valid() && Model() == Queue(maxBytes, maxDuration, [], {}, {}, None, false) && !eof
    {
      this.maxBytes, this.maxDuration := maxBytes, maxDuration;
      entries, videoTracks, awaiting, boundary := [], {}, {}, None;
      queuedBytes, queuedDuration, eof, exceeded := 0, 0, false, false;
    }

    /** The ascending search for the first boundary whose kept content fits. */
    method FindRecovery() returns (r: Option<nat>)
      requires maxBytes <= MaxU64 && maxDuration <= MaxI64 && ValidEntries(entries)
      ensures r == Recovery(Model(), entries)
    {
      hide Fits, Measures;
      var ts := KeyTimestamps(entries);
      for i := 0 to |ts|
        invariant forall k | 0 <= k < i :: !Recovers(Model(), entries, ts[k])
      {
        var bounds := Measure(entries, Some(ts[i]), videoTracks);
        MeasureDecides(bounds, Retained(entries, ts[i], videoTracks), maxBytes, maxDuration);
        if WithinLimits(bounds, maxBytes, maxDuration) {
          assert ts[i] in ts;
          assert IsRecovery(Model(), entries, Some(ts[i]));
          RecoveryUnique(Model(), entries, Some(ts[i]));
          return Some(ts[i]);
        }
      }
      assert IsRecovery(Model(), entries, None);
      RecoveryUnique(Model(), entries, None);
      return None;
    }

    /** The shed loop: the entries a boundary keeps, and the video tracks that started. */
    method Retain(t: nat) returns (retained: seq<Entry>, started: set<string>)
      ensures retained == Retained(entries, t, videoTracks) && started == StartedAfter(entries, t, videoTracks)
    {
      retained, started := [], {};
      var i := 0;
      while i < |entries|
        invariant 0 <= i <= |entries|
        invariant retained == Retained(entries[..i], t, videoTracks)
        invariant started == StartedAfter(entries[..i], t, videoTracks)
      {
        OneMore(entries, i, t, videoTracks);
        var e := entries[i];
        if Keeps(e, t, videoTracks, started) {
          retained := retained + [e];
        }
        started := Started(e, t, videoTracks, started);
        i := i + 1;
      }
      assert entries[..i] == entries;
    }

    /** `push` after the gate: append, and shed when the content no longer fits. */
    method EnterEntry(e: Entry) returns (admission: Admission)
      requires Valid() && Admissible(Model(), e)
      modifies this
      ensures Valid() && eof == old(eof)
      ensures (Model(), admission) == Enter(old(Model()), e)
    {
      hide Fits, Retained, StartedAfter, IsSpan, TotalBytes, Measures;
      ghost var q := Model();
      EnterKeepsValid(q, e);
      entries := entries + [e];
      assert Model() == q.(entries := q.entries + [e]);
      var appended := Measure(entries, None, videoTracks);
      MeasureDecides(appended, entries, maxBytes, maxDuration);
      if WithinLimits(appended, maxBytes, maxDuration) {
        CountersOf(appended, entries);
        queuedBytes, queuedDuration := appended.bytes, appended.duration;
        return Accepted;
      }
      var recovery := FindRecovery();
      SameRecovery(q, Model(), entries);
      if recovery.None? {
        entries := entries[..|entries| - 1];
        exceeded := true;
        return NoDecodableBoundary;
      }
      var retained, started := Retain(recovery.value);
      entries := retained;
      boundary := recovery;
      awaiting := videoTracks - started;
      var after := Measure(entries, None, videoTracks);
      MeasureDecides(after, entries, maxBytes, maxDuration);
      CountersOf(after, entries);
      queuedBytes, queuedDuration := after.bytes, after.duration;
      return ShedToKeyframe;
    }

    /** `push`. */
    method PushFragment(f: Fragment, role: Role) returns (admission: Admission)
      requires Valid() && ValidFragment(f)
      modifies this
      ensures Valid() && eof == old(eof)
      ensures (Model(), admission) == Push(old(Model()), f, role)
    {
      hide Enter, Fits, IsSpan, TotalBytes;
      if exceeded {
        return NoDecodableBoundary;
      }
      if role.Media? {
        GateEffect(Model(), f);
        var video := f.track in videoTracks || IsVideoFragment(f);
        if video {
          var inserted := f.track !in videoTracks;
          videoTracks := videoTracks + {f.track};
          if boundary.Some? && inserted {
            awaiting := awaiting + {f.track};
          }
        }
        if boundary.Some? && f.start < boundary.value {
          return ShedToKeyframe;
        }
        if video && f.track in awaiting {
          if !f.keyframe {
            return ShedToKeyframe;
          }
          awaiting := awaiting - {f.track};
        }
        assert Model() == Gate(old(Model()), f).0;
      }
      admission := EnterEntry(Entry(f, role));
    }

    /** `try_pop`. */
    method TryPop() returns (popped: Option<Entry>)
      requires Valid()
      modifies this
      ensures Valid() && eof == old(eof)
      ensures (Model(), popped) == Pop(old(Model()))
    {
      hide Fits, IsSpan, TotalBytes, Measures;
      PopKeepsValid(Model());
      if entries == [] {
        return None;
      }
      popped := Some(entries[0]);
      entries := entries[1..];
      var bounds := Measure(entries, None, videoTracks);
      MeasureDecides(bounds, entries, maxBytes, maxDuration);
      CountersOf(bounds, entries);
      queuedBytes, queuedDuration := bounds.bytes, bounds.duration;
    }

    method MarkEof()
      requires Valid()
      modifies this`eof
      ensures Valid() && eof && Model() == old(Model())
    {
      eof := true;
    }

    method Done() returns (done: bool)
      ensures done <==> eof && entries == []
    {
      done := eof && entries == [];
    }
  }

  lemma CountersOf(b: Bounds, entries: seq<Entry>)
    requires Measures(b, entries) && !b.bytesOverflow && !b.timeOverflow
    ensures b.bytes == TotalBytes(entries) && IsSpan(entries, b.duration)
  {
  }

  /** The boundary search looks only at the limits, the video tracks and the entries. */
  lemma SameRecovery(q: Queue, r: Queue, entries: seq<Entry>)
    requires q.maxBytes == r.maxBytes && q.maxDuration == r.maxDuration && q.videoTracks == r.videoTracks
    ensures Recovery(q, entries) == Recovery(r, entries)
  {
    hide Fits, Retained, KeyTimes;
    forall t
      ensures Recovers(q, entries, t) <==> Recovers(r, entries, t)
    {
    }
    RecoveryUnique(q, entries, Recovery(r, entries));
  }
}
