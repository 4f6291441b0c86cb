/**
 * The live media queue: bounded in bytes and in media time, shedding to a
 * keyframe boundary when a fragment does not fit. The locked methods are atomic
 * steps; a fragment carries a serial number that stands for its identity.
 */
module LiveMedia {
  import opened Bytes

  const MaxI64 := 0x7FFF_FFFF_FFFF_FFFF

  datatype Role = Media | Initialization

  datatype Fragment = Fragment(serial: nat, track: string, start: nat, duration: nat, size: nat, keyframe: bool,
                               sap: Option<nat>)

  datatype Entry = Entry(fragment: Fragment, role: Role)

  datatype Admission = Accepted | ShedToKeyframe | NoDecodableBoundary

  predicate IsVideoFragment(f: Fragment) {
    f.keyframe || f.sap == Some(0) || f.sap == Some(2)
  }

  ghost predicate ValidFragment(f: Fragment) {
    f.start <= MaxU64 && f.duration <= MaxU64 && f.size <= MaxU64
  }

  ghost predicate ValidEntries(entries: seq<Entry>) {
    forall e | e in entries :: ValidFragment(e.fragment)
  }

  // ---- what fits

  function End(f: Fragment): nat {
    f.start + f.duration
  }

  function TotalBytes(entries: seq<Entry>): nat {
    if entries == [] then 0 else TotalBytes(entries[..|entries| - 1]) + entries[|entries| - 1].fragment.size
  }

  /**
   * A queue content within the limits: the byte total, no media end past 64 bits,
   * and no two media fragments further apart than the media limit.
   */
  ghost predicate Fits(maxBytes: nat, maxDuration: nat, entries: seq<Entry>) {
    TotalBytes(entries) <= maxBytes &&
    (forall e | e in entries && e.role.Media? :: End(e.fragment) <= MaxU64) &&
    (forall a, b | a in entries && b in entries && a.role.Media? && b.role.Media? ::
       maxDuration < MaxI64 ==> End(a.fragment) - b.fragment.start <= maxDuration)
  }

  /** The media time covered: latest end minus earliest start, none without media, capped at 63 bits. */
  ghost predicate IsSpan(entries: seq<Entry>, span: nat) {
    if exists e | e in entries :: e.role.Media? then
      exists a, b | a in entries && b in entries ::
        a.role.Media? && b.role.Media? && Earliest(entries, a) && Latest(entries, b) &&
        span == (if End(b.fragment) - a.fragment.start > MaxI64 then MaxI64 else End(b.fragment) - a.fragment.start)
    else span == 0
  }

  ghost predicate Earliest(entries: seq<Entry>, a: Entry) {
    forall e | e in entries && e.role.Media? :: a.fragment.start <= e.fragment.start
  }

  ghost predicate Latest(entries: seq<Entry>, b: Entry) {
    forall e | e in entries && e.role.Media? :: End(e.fragment) <= End(b.fragment)
  }

  // ---- what a recovery boundary keeps

  /** `should_retain`; `started` holds the video tracks that already kept a keyframe. */
  predicate Keeps(e: Entry, boundary: nat, videoTracks: set<string>, started: set<string>) {
    e.role.Initialization? ||
    (e.fragment.start >= boundary &&
     (e.fragment.track !in videoTracks || e.fragment.track in started || e.fragment.keyframe))
  }

  function Started(e: Entry, boundary: nat, videoTracks: set<string>, started: set<string>): set<string> {
    if e.role.Media? && Keeps(e, boundary, videoTracks, started) && e.fragment.track in videoTracks
    then started + {e.fragment.track} else started
  }

  function StartedAfter(entries: seq<Entry>, boundary: nat, videoTracks: set<string>): set<string> {
    if entries == [] then {}
    else
      var n := |entries| - 1;
      Started(entries[n], boundary, videoTracks, StartedAfter(entries[..n], boundary, videoTracks))
  }

  function Retained(entries: seq<Entry>, boundary: nat, videoTracks: set<string>): (r: seq<Entry>)
    ensures forall e | e in r :: e in entries && (e.role.Media? ==> e.fragment.start >= boundary)
  {
    if entries == [] then []
    else
      var n := |entries| - 1;
      var before := Retained(entries[..n], boundary, videoTracks);
      if Keeps(entries[n], boundary, videoTracks, StartedAfter(entries[..n], boundary, videoTracks))
      then before + [entries[n]] else before
  }

  ghost function KeyTimes(entries: seq<Entry>): set<nat> {
    set e | e in entries && e.role.Media? && e.fragment.keyframe :: e.fragment.start
  }

  // ---- the queue as a value

  datatype Queue = Queue(maxBytes: nat, maxDuration: nat, entries: seq<Entry>, videoTracks: set<string>,
                         awaiting: set<string>, boundary: Option<nat>, exceeded: bool)
  {
    ghost predicate Valid() {
      maxBytes <= MaxU64 && maxDuration <= MaxI64 && ValidEntries(entries) && Fits(maxBytes, maxDuration, entries) &&
      awaiting <= videoTracks &&
      (boundary.Some? ==> forall e | e in entries && e.role.Media? :: e.fragment.start >= boundary.value)
    }
  }

  /** Shedding to `t` brings the content within the limits. */
  ghost predicate Recovers(q: Queue, entries: seq<Entry>, t: nat) {
    t in KeyTimes(entries) && Fits(q.maxBytes, q.maxDuration, Retained(entries, t, q.videoTracks))
  }

  /** The boundary a shed uses: the least keyframe time that recovers, if any does. */
  ghost predicate IsRecovery(q: Queue, entries: seq<Entry>, r: Option<nat>) {
    match r
    case None => forall t | t in KeyTimes(entries) :: !Recovers(q, entries, t)
    case Some(t) => Recovers(q, entries, t) && forall u | Recovers(q, entries, u) :: t <= u
  }

  lemma {:induction false} LeastExists(q: Queue, entries: seq<Entry>, t: nat)
    requires Recovers(q, entries, t)
    ensures exists u :: IsRecovery(q, entries, Some(u))
    decreases t
  {
    if u: nat :| Recovers(q, entries, u) && u < t {
      LeastExists(q, entries, u);
    } else {
      assert IsRecovery(q, entries, Some(t));
    }
  }

  ghost function Recovery(q: Queue, entries: seq<Entry>): (r: Option<nat>)
    ensures IsRecovery(q, entries, r)
  {
    if t :| Recovers(q, entries, t) then
      LeastExists(q, entries, t);
      var u :| IsRecovery(q, entries, Some(u));
      Some(u)
    else None
  }

  lemma RecoveryUnique(q: Queue, entries: seq<Entry>, r: Option<nat>)
    requires IsRecovery(q, entries, r)
    ensures r == Recovery(q, entries)
  {
  }

  /** The classification and gating at the head of `push`: the queue after it, and whether to drop. */
  function Gate(q: Queue, f: Fragment): (Queue, bool) {
    var video := f.track in q.videoTracks || IsVideoFragment(f);
    var known := if video then q.videoTracks + {f.track} else q.videoTracks;
    var awaiting := if video && q.boundary.Some? && f.track !in q.videoTracks then q.awaiting + {f.track} else q.awaiting;
    var seen := q.(videoTracks := known, awaiting := awaiting);
    if q.boundary.Some? && f.start < q.boundary.value then (seen, true)
    else if video && f.track in awaiting then
      if f.keyframe then (seen.(awaiting := awaiting - {f.track}), false) else (seen, true)
    else (seen, false)
  }

  /** What `push` does with an entry that passed the gate. */
  ghost function Enter(q: Queue, e: Entry): (Queue, Admission) {
    var entries := q.entries + [e];
    if Fits(q.maxBytes, q.maxDuration, entries) then (q.(entries := entries), Accepted)
    else match Recovery(q, entries)
      case None => (q.(exceeded := true), NoDecodableBoundary)
      case Some(t) =>
        (q.(entries := Retained(entries, t, q.videoTracks), boundary := Some(t),
            awaiting := q.videoTracks - StartedAfter(entries, t, q.videoTracks)), ShedToKeyframe)
  }

  ghost function Push(q: Queue, f: Fragment, role: Role): (Queue, Admission) {
    if q.exceeded then (q, NoDecodableBoundary)
    else if role.Initialization? then Enter(q, Entry(f, role))
    else
      var (gated, drop) := Gate(q, f);
      if drop then (gated, ShedToKeyframe) else Enter(gated, Entry(f, role))
  }

  function Pop(q: Queue): (Queue, Option<Entry>) {
    if q.entries == [] then (q, None) else (q.(entries := q.entries[1..]), Some(q.entries[0]))
  }

  // ---- every step keeps the limits

  lemma {:induction false} TotalOfFewer(entries: seq<Entry>, boundary: nat, videoTracks: set<string>)
    ensures TotalBytes(Retained(entries, boundary, videoTracks)) <= TotalBytes(entries)
  {
    if entries != [] {
      var n := |entries| - 1;
      TotalOfFewer(entries[..n], boundary, videoTracks);
      var before := Retained(entries[..n], boundary, videoTracks);
      assert (before + [entries[n]])[..|before|] == before;
    }
  }

  lemma {:induction false} TotalOfTail(entries: seq<Entry>)
    requires entries != []
    ensures TotalBytes(entries) == entries[0].fragment.size + TotalBytes(entries[1..])
  {
    var n := |entries| - 1;
    if n > 0 {
      TotalOfTail(entries[..n]);
      assert entries[1..][..n - 1] == entries[..n][1..];
    }
  }

  lemma TotalOfAppend(entries: seq<Entry>, e: Entry)
    ensures TotalBytes(entries + [e]) == TotalBytes(entries) + e.fragment.size
  {
    assert (entries + [e])[..|entries|] == entries;
  }

  lemma PopKeepsValid(q: Queue)
    requires q.Valid()
    ensures Pop(q).0.Valid()
  {
    if q.entries != [] {
      TotalOfTail(q.entries);
    }
  }

  /** The gate touches only the track sets, and lets through no media below the boundary. */
  lemma GateEffect(q: Queue, f: Fragment)
    requires q.Valid()
    ensures var (g, drop) := Gate(q, f);
      g.Valid() && g == q.(videoTracks := g.videoTracks, awaiting := g.awaiting) &&
      (!drop && q.boundary.Some? ==> f.start >= q.boundary.value)
  {
    hide Fits;
  }

  ghost predicate Admissible(q: Queue, e: Entry) {
    ValidFragment(e.fragment) && (e.role.Media? && q.boundary.Some? ==> e.fragment.start >= q.boundary.value)
  }

  lemma EnterKeepsValid(q: Queue, e: Entry)
    requires q.Valid() && Admissible(q, e)
    ensures Enter(q, e).0.Valid()
  {
    hide Fits, KeyTimes, Retained;
  }

  lemma EnterEffect(q: Queue, e: Entry)
    requires q.Valid() && Admissible(q, e) && !q.exceeded
    ensures var (next, admission) := Enter(q, e);
      (q.boundary.Some? ==> next.boundary.Some? && q.boundary.value <= next.boundary.value) &&
      (admission.NoDecodableBoundary? <==> next.exceeded) &&
      (admission.NoDecodableBoundary? ==> next.entries == q.entries)
  {
    hide Fits, Retained;
  }

  lemma PushKeepsValid(q: Queue, f: Fragment, role: Role)
    requires q.Valid() && ValidFragment(f)
    ensures Push(q, f, role).0.Valid()
  {
    hide Enter, Gate, Queue.Valid;
    GateEffect(q, f);
    EnterIfLetIn(q, f, role);
  }

  lemma EnterIfLetIn(q: Queue, f: Fragment, role: Role)
    requires q.Valid() && ValidFragment(f)
    ensures role.Initialization? ==> Admissible(q, Entry(f, role)) && Enter(q, Entry(f, role)).0.Valid()
    ensures role.Media? && !Gate(q, f).1 ==>
      Gate(q, f).0.Valid() && Admissible(Gate(q, f).0, Entry(f, role)) && Enter(Gate(q, f).0, Entry(f, role)).0.Valid()
  {
    hide Enter, Gate, Queue.Valid;
    GateEffect(q, f);
    if role.Initialization? {
      EnterKeepsValid(q, Entry(f, role));
    } else if !Gate(q, f).1 {
      EnterKeepsValid(Gate(q, f).0, Entry(f, role));
    }
  }

  /**
   * What one push can do: limits kept, boundary never lower, and when no
   * boundary recovers, only the new fragment is lost and every later push fails.
   */
  lemma PushEffect(q: Queue, f: Fragment, role: Role)
    requires q.Valid() && ValidFragment(f)
    ensures var (next, admission) := Push(q, f, role);
      next.Valid() &&
      (q.boundary.Some? ==> next.boundary.Some? && q.boundary.value <= next.boundary.value) &&
      (admission.NoDecodableBoundary? <==> next.exceeded) &&
      (admission.NoDecodableBoundary? ==> next.entries == q.entries) &&
      (q.exceeded ==> next == q)
  {
    hide Enter, Gate, Queue.Valid;
    PushKeepsValid(q, f, role);
    GateEffect(q, f);
    EnterIfLetIn(q, f, role);
    if !q.exceeded {
      if role.Initialization? {
        EnterEffect(q, Entry(f, role));
      } else if !Gate(q, f).1 {
        EnterEffect(Gate(q, f).0, Entry(f, role));
      }
    }
  }

  /** A track that is not video is only ever dropped for its time, never for want of a keyframe. */
  lemma AudioIsNotGated(q: Queue, f: Fragment, entries: seq<Entry>, e: Entry, b: nat)
    requires f.track !in q.videoTracks && !f.keyframe && f.sap != Some(0) && f.sap != Some(2)
    requires e in entries && e.fragment.track == f.track
    ensures Gate(q, f).1 <==> q.boundary.Some? && f.start < q.boundary.value
    ensures Gate(q, f).0 == q
    ensures e in Retained(entries, b, q.videoTracks) <==> e.role.Initialization? || e.fragment.start >= b
  {
    RetainedOffVideo(entries, b, q.videoTracks, e);
  }

  lemma {:induction false} RetainedOffVideo(entries: seq<Entry>, b: nat, tracks: set<string>, e: Entry)
    requires e in entries && (e.role.Initialization? || e.fragment.track !in tracks)
    ensures e in Retained(entries, b, tracks) <==> e.role.Initialization? || e.fragment.start >= b
  {
    var n := |entries| - 1;
    if e in entries[..n] {
      RetainedOffVideo(entries[..n], b, tracks, e);
    }
  }
}
