/**
 * Runs of the live media queue: over every sequence of pushes and pops, a video
 * track resumes after a gap only at a keyframe.
 */
module LiveMediaRuns {
  import opened Bytes
  import opened LiveMedia

  datatype Op = PushOp(fragment: Fragment, role: Role) | PopOp

  /** The queue, everything ever pushed (numbered by position), and everything handed out. */
  datatype Run = Run(q: Queue, pushed: seq<Entry>, delivered: seq<Entry>)

  /** The entry a push creates: the fragment numbered by its position in the run. */
  function Numbered(r: Run, f: Fragment, role: Role): Entry {
    Entry(f.(serial := |r.pushed|), role)
  }

  ghost function Step(r: Run, op: Op): Run {
    match op
    case PushOp(f, role) =>
      var e := Numbered(r, f, role);
      Run(Push(r.q, e.fragment, role).0, r.pushed + [e], r.delivered)
    case PopOp =>
      var (q, popped) := Pop(r.q);
      Run(q, r.pushed, if popped.Some? then r.delivered + [popped.value] else r.delivered)
  }

  ghost function After(q: Queue, ops: seq<Op>): Run {
    if ops == [] then Run(q, [], []) else Step(After(q, ops[..|ops| - 1]), ops[|ops| - 1])
  }

  /** A queue nothing has been pushed to. */
  ghost predicate Starts(q: Queue) {
    q.Valid() && q.entries == [] && q.videoTracks == {} && q.boundary.None?
  }

  ghost predicate ValidOps(ops: seq<Op>) {
    forall op | op in ops :: op.PushOp? ==> ValidFragment(op.fragment)
  }

  ghost predicate OnTrack(e: Entry, t: string) {
    e.role.Media? && e.fragment.track == t
  }

  /** The last push on a track. */
  ghost function LastOn(pushed: seq<Entry>, t: string): (r: Option<nat>)
    ensures r.Some? ==> r.value < |pushed| && OnTrack(pushed[r.value], t)
    ensures forall i: nat | i < |pushed| && OnTrack(pushed[i], t) :: r.Some? && i <= r.value
  {
    if pushed == [] then None
    else if OnTrack(pushed[|pushed| - 1], t) then Some(|pushed| - 1)
    else LastOn(pushed[..|pushed| - 1], t)
  }

  /** The first fragment of the track can be told to be video; the queue then takes the track for video. */
  ghost predicate FirstIsVideo(pushed: seq<Entry>, t: string) {
    forall i: nat | i < |pushed| && OnTrack(pushed[i], t) && LastOn(pushed[..i], t).None? ::
      IsVideoFragment(pushed[i].fragment)
  }

  /** The media end does not fit 64 bits: the queue can never hold the fragment. */
  predicate PastEnd(e: Entry) {
    End(e.fragment) > MaxU64
  }

  /**
   * The fragments that must be below a boundary under which fragment `i` is a
   * keyframe that counts, `j` is dropped and the next one kept: `j` itself, and
   * those the queue can never hold, keyframes anywhere before and others after `i`.
   */
  ghost predicate MustGo(pushed: seq<Entry>, t: string, i: nat, j: nat, x: nat)
    requires j < |pushed|
  {
    x <= j && OnTrack(pushed[x], t) && (x == j || (PastEnd(pushed[x]) && (pushed[x].fragment.keyframe || i < x)))
  }

  /**
   * A keyframe `i`, a later fragment `j` of the track and the next one, `m`, which is
   * not a keyframe, such that `j` starts before both others.
   */
  ghost predicate GapAt(pushed: seq<Entry>, t: string, i: nat, j: nat, m: nat) {
    i < j < m < |pushed| && OnTrack(pushed[i], t) && OnTrack(pushed[m], t) && LastOn(pushed[..m], t) == Some(j) &&
    pushed[i].fragment.keyframe && !PastEnd(pushed[i]) && !pushed[m].fragment.keyframe && !PastEnd(pushed[m]) &&
    forall x: nat | x <= j && MustGo(pushed, t, i, j, x) ::
      pushed[x].fragment.start < pushed[i].fragment.start && pushed[x].fragment.start < pushed[m].fragment.start
  }

  ghost predicate HasGap(pushed: seq<Entry>, t: string) {
    exists i: nat, j: nat, m: nat :: GapAt(pushed, t, i, j, m)
  }

  /** Delivered or still queued. */
  ghost predicate Alive(r: Run, i: nat)
    requires i < |r.pushed|
  {
    r.pushed[i] in r.delivered || r.pushed[i] in r.q.entries
  }

  /** Whenever a track's fragment is alive but the one before it is not, it is a keyframe. */
  ghost predicate ResumesAtKeyframes(r: Run, t: string) {
    forall i: nat | i < |r.pushed| && OnTrack(r.pushed[i], t) && Alive(r, i) ::
      var j := LastOn(r.pushed[..i], t);
      j.Some? ==> Alive(r, j.value) || r.pushed[i].fragment.keyframe
  }

  // ---- the invariant

  ghost predicate Increasing(entries: seq<Entry>) {
    forall i, j | 0 <= i < j < |entries| :: entries[i].fragment.serial < entries[j].fragment.serial
  }

  ghost predicate Numbering(r: Run) {
    (forall i: nat | i < |r.pushed| :: r.pushed[i].fragment.serial == i) &&
    (forall e | e in r.q.entries || e in r.delivered ::
       e.fragment.serial < |r.pushed| && r.pushed[e.fragment.serial] == e) &&
    Increasing(r.q.entries) &&
    (forall d, e | d in r.delivered && e in r.q.entries :: d.fragment.serial < e.fragment.serial)
  }

  /** Below the boundary, which has been set. */
  predicate Under(q: Queue, e: Entry) {
    q.boundary.Some? && e.fragment.start < q.boundary.value
  }

  /** Some keyframe of the track is at or above the boundary, and what follows it and cannot be held is below. */
  ghost predicate Anchor(pushed: seq<Entry>, t: string, boundary: nat, i: nat) {
    i < |pushed| && OnTrack(pushed[i], t) && pushed[i].fragment.keyframe && !PastEnd(pushed[i]) &&
    pushed[i].fragment.start >= boundary &&
    forall x: nat | i < x < |pushed| && OnTrack(pushed[x], t) && PastEnd(pushed[x]) :: pushed[x].fragment.start < boundary
  }

  ghost predicate Anchored(pushed: seq<Entry>, t: string, boundary: nat) {
    exists i: nat :: Anchor(pushed, t, boundary, i)
  }

  /** What the queue says about track `t` while it still accepts fragments. */
  ghost predicate TrackState(r: Run, t: string) {
    var last := LastOn(r.pushed, t);
    (t in r.q.videoTracks <==> last.Some?) &&
    (t in r.q.awaiting ==> r.q.boundary.Some? && forall e | e in r.q.entries :: !OnTrack(e, t)) &&
    (last.Some? && t !in r.q.awaiting ==>
       (Alive(r, last.value) || Under(r.q, r.pushed[last.value])) &&
       (r.q.boundary.Some? ==> Anchored(r.pushed, t, r.q.boundary.value)))
  }

  /** The fragments that cannot be held: keyframes, and all behind a queued one, are below the boundary. */
  ghost predicate PastEndUnder(r: Run, t: string) {
    forall x: nat | x < |r.pushed| && OnTrack(r.pushed[x], t) && PastEnd(r.pushed[x]) ::
      r.q.boundary.Some? &&
      (r.pushed[x].fragment.keyframe ==> Under(r.q, r.pushed[x])) &&
      (forall s | s in r.q.entries && OnTrack(s, t) && s.fragment.serial < x :: Under(r.q, r.pushed[x]))
  }

  ghost predicate Inv(r: Run, t: string) {
    r.q.Valid() && Numbering(r) && ResumesAtKeyframes(r, t) && (!r.q.exceeded ==> TrackState(r, t) && PastEndUnder(r, t))
  }

  // ---- what a shed does to one track

  lemma {:induction false} RetainedIncreasing(entries: seq<Entry>, b: nat, tracks: set<string>)
    requires Increasing(entries)
    ensures Increasing(Retained(entries, b, tracks))
  {
    if entries != [] {
      var n := |entries| - 1;
      RetainedIncreasing(entries[..n], b, tracks);
      assert forall e | e in Retained(entries[..n], b, tracks) :: e in entries[..n];
    }
  }

  /** A video track has started exactly when the kept entries show it. */
  lemma {:induction false} StartedShows(entries: seq<Entry>, b: nat, tracks: set<string>, t: string)
    requires t in tracks
    ensures t in StartedAfter(entries, b, tracks) <==> exists e | e in Retained(entries, b, tracks) :: OnTrack(e, t)
  {
    if entries != [] {
      var n := |entries| - 1;
      StartedShows(entries[..n], b, tracks, t);
      var before, last := Retained(entries[..n], b, tracks), entries[n];
      if Keeps(last, b, tracks, StartedAfter(entries[..n], b, tracks)) {
        assert last in Retained(entries, b, tracks);
        assert forall e | e in before :: e in Retained(entries, b, tracks);
      }
    }
  }

  /** Once a video track has a kept entry, every later one at or above the boundary is kept. */
  lemma {:induction false} KeepsLater(entries: seq<Entry>, b: nat, tracks: set<string>, t: string, s: Entry, e: Entry)
    requires t in tracks && Increasing(entries)
    requires s in Retained(entries, b, tracks) && OnTrack(s, t)
    requires e in entries && OnTrack(e, t) && s.fragment.serial < e.fragment.serial && e.fragment.start >= b
    ensures e in Retained(entries, b, tracks)
  {
    var n := |entries| - 1;
    var before := Retained(entries[..n], b, tracks);
    assert s in before by {
      assert s != entries[n];
    }
    if e == entries[n] {
      StartedShows(entries[..n], b, tracks, t);
    } else {
      assert e in entries[..n];
      KeepsLater(entries[..n], b, tracks, t, s, e);
    }
  }

  /** The first kept entry of a video track is a keyframe, and the queue can hold it. */
  lemma {:induction false} FirstKept(entries: seq<Entry>, b: nat, tracks: set<string>, t: string, e: Entry)
    returns (s: Entry)
    requires t in tracks && Increasing(entries) && e in Retained(entries, b, tracks) && OnTrack(e, t)
    ensures s in Retained(entries, b, tracks) && s in entries && OnTrack(s, t) && s.fragment.keyframe
    ensures s.fragment.serial <= e.fragment.serial
  {
    var n := |entries| - 1;
    var before := Retained(entries[..n], b, tracks);
    if e in before {
      s := FirstKept(entries[..n], b, tracks, t, e);
    } else {
      assert e == entries[n];
      StartedShows(entries[..n], b, tracks, t);
      if e.fragment.keyframe {
        s := e;
      } else {
        var f :| f in before && OnTrack(f, t);
        s := FirstKept(entries[..n], b, tracks, t, f);
        assert f in entries[..n];
      }
    }
  }

  /** A keyframe at or above the boundary is kept. */
  lemma {:induction false} KeyframeKept(entries: seq<Entry>, b: nat, tracks: set<string>, e: Entry)
    requires e in entries && e.role.Media? && e.fragment.keyframe && e.fragment.start >= b
    ensures e in Retained(entries, b, tracks)
  {
    var n := |entries| - 1;
    if e != entries[n] {
      assert e in entries[..n];
      KeyframeKept(entries[..n], b, tracks, e);
    }
  }

  // ---- pops, and pushes that leave the queue alone

  lemma PopMoves(r: Run)
    requires Numbering(r) && r.q.entries != []
    ensures var next := Step(r, PopOp);
      Numbering(next) && (forall i: nat | i < |r.pushed| :: Alive(next, i) <==> Alive(r, i)) &&
      forall e | e in next.q.entries :: e in r.q.entries
  {
    var next := Step(r, PopOp);
    var head := r.q.entries[0];
    assert r.q.entries == [head] + next.q.entries;
    assert forall e | e in next.q.entries :: head.fragment.serial < e.fragment.serial;
  }

  lemma PopKeepsInv(r: Run, t: string)
    requires Inv(r, t)
    ensures Inv(Step(r, PopOp), t)
  {
    hide Numbering, Queue.Valid, Alive, Anchored;
    PopKeepsValid(r.q);
    if r.q.entries != [] {
      PopMoves(r);
    }
  }

  /** A push that leaves the queue contents alone keeps the numbering and the keyframe rule. */
  lemma UnchangedKeepsRule(r: Run, e: Entry, q: Queue, t: string)
    requires Inv(r, t) && e.fragment.serial == |r.pushed| && q.entries == r.q.entries
    ensures var next := Run(q, r.pushed + [e], r.delivered);
      Numbering(next) && ResumesAtKeyframes(next, t) && forall i: nat | i < |r.pushed| :: Alive(next, i) <==> Alive(r, i)
  {
    hide Queue.Valid, TrackState, PastEndUnder;
    var next := Run(q, r.pushed + [e], r.delivered);
    assert forall i: nat | i < |r.pushed| :: next.pushed[i] == r.pushed[i] && next.pushed[..i] == r.pushed[..i];
    assert !Alive(next, |r.pushed|);
  }

  /** The new last push on a track. */
  lemma LastAfterPush(pushed: seq<Entry>, e: Entry, t: string)
    ensures LastOn(pushed + [e], t) == if OnTrack(e, t) then Some(|pushed|) else LastOn(pushed, t)
  {
    assert (pushed + [e])[..|pushed|] == pushed;
  }

  /** One more push keeps the anchor unless it cannot be held and is not below the boundary. */
  lemma AnchorStays(pushed: seq<Entry>, e: Entry, t: string, boundary: nat)
    requires Anchored(pushed, t, boundary)
    requires OnTrack(e, t) && PastEnd(e) ==> e.fragment.start < boundary
    ensures Anchored(pushed + [e], t, boundary)
  {
    var i: nat :| Anchor(pushed, t, boundary, i);
    assert Anchor(pushed + [e], t, boundary, i);
  }

  lemma AnchorOf(pushed: seq<Entry>, t: string, boundary: nat, i: nat)
    requires Anchor(pushed, t, boundary, i)
    ensures Anchored(pushed, t, boundary)
  {
  }

  /** What the gate decides for the fragment's own track; it changes no other. */
  lemma GateDecides(q: Queue, f: Fragment, t: string)
    requires f.track == t ==> t in q.videoTracks || IsVideoFragment(f)
    requires t in q.awaiting ==> q.boundary.Some?
    ensures var (g, drop) := Gate(q, f);
      g.entries == q.entries && g.boundary == q.boundary && g.exceeded == q.exceeded &&
      (f.track != t ==> (t in g.videoTracks <==> t in q.videoTracks) && (t in g.awaiting <==> t in q.awaiting)) &&
      (f.track == t ==> t in g.videoTracks) &&
      (f.track == t && drop ==>
         q.boundary.Some? && (t in g.awaiting <==> t in q.awaiting || t !in q.videoTracks) &&
         (f.start < q.boundary.value || (t in g.awaiting && !f.keyframe))) &&
      (f.track == t && !drop ==>
         t !in g.awaiting && (q.boundary.Some? ==> f.start >= q.boundary.value) &&
         (t in q.awaiting || (q.boundary.Some? && t !in q.videoTracks) ==> f.keyframe))
  {
  }

  lemma FirstVideo(r: Run, e: Entry, t: string)
    requires TrackState(r, t) && FirstIsVideo(r.pushed + [e], t) && OnTrack(e, t)
    ensures t in r.q.videoTracks || IsVideoFragment(e.fragment)
  {
    var pushed := r.pushed + [e];
    assert pushed[..|r.pushed|] == r.pushed && pushed[|r.pushed|] == e;
  }

  lemma DropKeepsState(r: Run, e: Entry, t: string)
    requires Inv(r, t) && !r.q.exceeded && e.role.Media? && e.fragment.serial == |r.pushed|
    requires FirstIsVideo(r.pushed + [e], t) && Gate(r.q, e.fragment).1
    requires var next := Run(Gate(r.q, e.fragment).0, r.pushed + [e], r.delivered);
      forall i: nat | i < |r.pushed| :: Alive(next, i) <==> Alive(r, i)
    ensures var next := Run(Gate(r.q, e.fragment).0, r.pushed + [e], r.delivered);
      TrackState(next, t) && PastEndUnder(next, t)
  {
    hide Gate, Alive, Anchored, Queue.Valid, ResumesAtKeyframes;
    var next := Run(Gate(r.q, e.fragment).0, r.pushed + [e], r.delivered);
    if OnTrack(e, t) {
      FirstVideo(r, e, t);
    }
    GateDecides(r.q, e.fragment, t);
    LastAfterPush(r.pushed, e, t);
    assert next.pushed[|r.pushed|] == e;
    assert forall i: nat | i < |r.pushed| :: next.pushed[i] == r.pushed[i];
    if t in next.q.videoTracks && t !in next.q.awaiting && r.q.boundary.Some? {
      AnchorStays(r.pushed, e, t, r.q.boundary.value);
    }
  }

  lemma DropKeepsInv(r: Run, e: Entry, t: string)
    requires Inv(r, t) && !r.q.exceeded && e.role.Media? && e.fragment.serial == |r.pushed|
    requires ValidFragment(e.fragment) && FirstIsVideo(r.pushed + [e], t) && Gate(r.q, e.fragment).1
    ensures Inv(Run(Gate(r.q, e.fragment).0, r.pushed + [e], r.delivered), t)
  {
    hide Gate, TrackState, PastEndUnder, Queue.Valid, Numbering, ResumesAtKeyframes;
    GateEffect(r.q, e.fragment);
    UnchangedKeepsRule(r, e, Gate(r.q, e.fragment).0, t);
    DropKeepsState(r, e, t);
  }

  // ---- pushes that enter

  /** The queue right after an admitted entry is appended, limits not yet looked at. */
  ghost function Appended(r: Run, q: Queue, e: Entry): Run {
    Run(q.(entries := q.entries + [e]), r.pushed + [e], r.delivered)
  }

  /** The queue an entry enters: as it was, or as the gate left it. */
  ghost predicate Entering(r: Run, q: Queue, e: Entry, t: string) {
    e.fragment.serial == |r.pushed| && ValidFragment(e.fragment) && FirstIsVideo(r.pushed + [e], t) &&
    if e.role.Initialization? then q == r.q else Gate(r.q, e.fragment) == (q, false)
  }

  lemma AppendMoves(r: Run, q: Queue, e: Entry)
    requires Numbering(r) && e.fragment.serial == |r.pushed| && q.entries == r.q.entries
    ensures var a := Appended(r, q, e);
      Numbering(a) && Alive(a, |r.pushed|) && a.pushed[|r.pushed|] == e &&
      forall i: nat | i < |r.pushed| :: a.pushed[i] == r.pushed[i] && (Alive(a, i) <==> Alive(r, i))
  {
    var a := Appended(r, q, e);
    assert a.pushed[|r.pushed|] == e && e in a.q.entries;
    assert forall i: nat | i < |r.pushed| :: a.pushed[i] == r.pushed[i] && a.pushed[i] != e;
  }

  /** Who the last fragment on the track is to an entry that the gate let in: alive, or below the boundary. */
  lemma EnteringState(r: Run, q: Queue, e: Entry, t: string)
    requires Inv(r, t) && !r.q.exceeded && Entering(r, q, e, t)
    ensures q.Valid() && Admissible(q, e) && !q.exceeded && Numbering(r) && e.fragment.serial == |r.pushed|
    ensures q.entries == r.q.entries && q.boundary == r.q.boundary
    ensures t in q.videoTracks <==> LastOn(r.pushed + [e], t).Some?
    ensures !OnTrack(e, t) ==> (t in q.awaiting <==> t in r.q.awaiting)
    ensures OnTrack(e, t) ==>
      t !in q.awaiting && (q.boundary.Some? ==> e.fragment.start >= q.boundary.value) &&
      (e.fragment.keyframe || (LastOn(r.pushed, t).None? && q.boundary.None?) ||
       (LastOn(r.pushed, t).Some? && t !in r.q.awaiting))
  {
    hide Gate, Fits, Anchored, Alive, ResumesAtKeyframes, Numbering;
    GateEffect(r.q, e.fragment);
    LastAfterPush(r.pushed, e, t);
    if OnTrack(e, t) {
      FirstVideo(r, e, t);
    }
    if e.role.Media? {
      GateDecides(r.q, e.fragment, t);
    }
  }

  /** An entry that fits. */
  lemma FitKeepsState(r: Run, q: Queue, e: Entry, t: string)
    requires Inv(r, t) && !r.q.exceeded && Entering(r, q, e, t) && !(e.role.Media? && PastEnd(e))
    ensures TrackState(Appended(r, q, e), t) && PastEndUnder(Appended(r, q, e), t)
  {
    hide Gate, Entering, Queue.Valid, Alive, Numbering, ResumesAtKeyframes, Anchored;
    EnteringState(r, q, e, t);
    AppendMoves(r, q, e);
    LastAfterPush(r.pushed, e, t);
    var a := Appended(r, q, e);
    if a.q.boundary.Some? && t in a.q.videoTracks && t !in a.q.awaiting {
      var b := a.q.boundary.value;
      if OnTrack(e, t) && e.fragment.keyframe {
        AnchorOf(a.pushed, t, b, |r.pushed|);
      } else {
        AnchorStays(r.pushed, e, t, b);
      }
    }
  }

  /** An anchor, a dropped fragment below the boundary and an entry that is no keyframe make a gap. */
  lemma GapFound(r: Run, q: Queue, e: Entry, t: string, j: nat)
    requires Inv(r, t) && !r.q.exceeded && q.boundary == r.q.boundary && q.boundary.Some?
    requires OnTrack(e, t) && !e.fragment.keyframe && !PastEnd(e) && e.fragment.start >= q.boundary.value
    requires LastOn(r.pushed, t) == Some(j) && r.pushed[j].fragment.start < q.boundary.value
    requires Anchored(r.pushed, t, q.boundary.value)
    ensures HasGap(r.pushed + [e], t)
  {
    hide Queue.Valid, Numbering, ResumesAtKeyframes, TrackState;
    var b, all := q.boundary.value, r.pushed + [e];
    var i: nat :| Anchor(r.pushed, t, b, i);
    assert all[..|r.pushed|] == r.pushed && all[|r.pushed|] == e;
    assert forall x: nat | x < |r.pushed| :: all[x] == r.pushed[x];
    assert i <= j;
    assert GapAt(all, t, i, j, |r.pushed|);
  }

  lemma AppendKeepsRule(r: Run, q: Queue, e: Entry, t: string)
    requires Inv(r, t) && !r.q.exceeded && Entering(r, q, e, t) && !(e.role.Media? && PastEnd(e))
    requires !HasGap(r.pushed + [e], t)
    ensures Numbering(Appended(r, q, e)) && ResumesAtKeyframes(Appended(r, q, e), t)
  {
    hide Gate, Entering, Queue.Valid, Alive, Numbering, Anchored, HasGap;
    EnteringState(r, q, e, t);
    AppendMoves(r, q, e);
    var a, n, last := Appended(r, q, e), |r.pushed|, LastOn(r.pushed, t);
    assert a.pushed[..n] == r.pushed;
    if OnTrack(e, t) && last.Some? && !Alive(r, last.value) && !e.fragment.keyframe {
      GapFound(r, q, e, t, last.value);
    }
    forall i: nat | i <= n && OnTrack(a.pushed[i], t) && Alive(a, i)
      ensures var j := LastOn(a.pushed[..i], t);
        j.Some? ==> Alive(a, j.value) || a.pushed[i].fragment.keyframe
    {
      if i < n {
        assert a.pushed[..i] == r.pushed[..i];
      }
    }
  }

  // ---- a shed

  /** After a shed to `b`: what the queue holds of the appended entries, and the sets. */
  ghost predicate Shed(a: Run, next: Run, b: nat) {
    next.pushed == a.pushed && next.delivered == a.delivered &&
    (a.q.boundary.Some? ==> a.q.boundary.value <= b) &&
    (forall e | e in next.q.entries && e.role.Media? :: !PastEnd(e)) &&
    next.q == a.q.(entries := Retained(a.q.entries, b, a.q.videoTracks), boundary := Some(b),
                   awaiting := a.q.videoTracks - StartedAfter(a.q.entries, b, a.q.videoTracks))
  }

  /** A shed keeps what it retains: nothing delivered changes, and only queued entries go. */
  lemma ShedKeepsNumbering(a: Run, next: Run, b: nat)
    requires Numbering(a) && Shed(a, next, b)
    ensures Numbering(next)
  {
    RetainedIncreasing(a.q.entries, b, a.q.videoTracks);
  }

  /** The entry just appended, as the last of the queue. */
  ghost predicate NewLast(r: Run, q: Queue, e: Entry, t: string) {
    Inv(r, t) && !r.q.exceeded && Entering(r, q, e, t)
  }

  /** A fragment behind a kept one of its track that the queue cannot hold is below the new boundary. */
  lemma PastEndGoes(r: Run, q: Queue, e: Entry, next: Run, b: nat, t: string, s: Entry, x: nat)
    requires NewLast(r, q, e, t) && Shed(Appended(r, q, e), next, b) && t in q.videoTracks
    requires s in next.q.entries && OnTrack(s, t) && s.fragment.serial < x <= |r.pushed|
    requires OnTrack(next.pushed[x], t) && PastEnd(next.pushed[x])
    ensures next.pushed[x].fragment.start < b
  {
    hide Gate, Retained, StartedAfter, Entering, TrackState, Alive, ResumesAtKeyframes, Queue.Valid, FirstIsVideo;
    EnteringState(r, q, e, t);
    AppendMoves(r, q, e);
    var a := Appended(r, q, e);
    assert s in a.q.entries;
    if x < |r.pushed| {
      assert s in r.q.entries by {
        assert s != e;
      }
      assert next.pushed[x] == r.pushed[x];
    } else if next.pushed[x].fragment.start >= b {
      KeepsLater(a.q.entries, b, a.q.videoTracks, t, s, e);
    }
  }

  /** So is every such keyframe. */
  lemma PastEndKeyGoes(r: Run, q: Queue, e: Entry, next: Run, b: nat, t: string, x: nat)
    requires NewLast(r, q, e, t) && Shed(Appended(r, q, e), next, b)
    requires x <= |r.pushed| && OnTrack(next.pushed[x], t) && PastEnd(next.pushed[x]) && next.pushed[x].fragment.keyframe
    ensures next.pushed[x].fragment.start < b
  {
    hide Gate, Retained, StartedAfter, Entering, TrackState, Alive, ResumesAtKeyframes, Queue.Valid, FirstIsVideo, Numbering;
    EnteringState(r, q, e, t);
    var a := Appended(r, q, e);
    if x < |r.pushed| {
      assert next.pushed[x] == r.pushed[x];
    } else {
      assert next.pushed[x] == e && e in a.q.entries;
      if e.fragment.start >= b {
        KeyframeKept(a.q.entries, b, a.q.videoTracks, e);
      }
    }
  }

  /** The last fragment of a track with a kept entry, at or above the boundary, was alive and is kept. */
  lemma LaterKept(r: Run, q: Queue, e: Entry, next: Run, b: nat, t: string, s: Entry, p: nat)
    requires NewLast(r, q, e, t) && Shed(Appended(r, q, e), next, b) && t in q.videoTracks
    requires s in next.q.entries && OnTrack(s, t) && s.fragment.serial <= p <= |r.pushed|
    requires OnTrack(next.pushed[p], t) && Alive(Appended(r, q, e), p) && next.pushed[p].fragment.start >= b
    ensures Alive(next, p)
  {
    hide Gate, Retained, StartedAfter, Entering, TrackState, ResumesAtKeyframes, Queue.Valid, FirstIsVideo, PastEndUnder;
    EnteringState(r, q, e, t);
    AppendMoves(r, q, e);
    var a := Appended(r, q, e);
    assert s in a.q.entries;
    if s.fragment.serial < p {
      assert a.pushed[p] in a.q.entries;
      KeepsLater(a.q.entries, b, a.q.videoTracks, t, s, a.pushed[p]);
    }
  }

  /** The last fragment before an entry, when an older entry of the track is still queued. */
  lemma LastWasAlive(r: Run, q: Queue, e: Entry, t: string, s: Entry)
    requires NewLast(r, q, e, t) && LastOn(r.pushed, t).Some? && s in r.q.entries && OnTrack(s, t)
    ensures var p := LastOn(r.pushed, t).value;
      Alive(r, p) || (r.q.boundary.Some? && r.pushed[p].fragment.start < r.q.boundary.value)
  {
    hide Gate, Entering, Queue.Valid, ResumesAtKeyframes, Numbering, Anchored;
  }

  lemma ShedKeepsPastEnd(r: Run, q: Queue, e: Entry, next: Run, b: nat, t: string)
    requires NewLast(r, q, e, t) && Shed(Appended(r, q, e), next, b)
    requires t in q.videoTracks <==> LastOn(r.pushed + [e], t).Some?
    ensures PastEndUnder(next, t)
  {
    hide Gate, Retained, StartedAfter, Entering, TrackState, Alive, ResumesAtKeyframes, Queue.Valid, NewLast;
    forall x: nat | x < |next.pushed| && OnTrack(next.pushed[x], t) && PastEnd(next.pushed[x])
      ensures next.pushed[x].fragment.keyframe ==> Under(next.q, next.pushed[x])
      ensures forall s | s in next.q.entries && OnTrack(s, t) && s.fragment.serial < x :: Under(next.q, next.pushed[x])
    {
      if next.pushed[x].fragment.keyframe {
        PastEndKeyGoes(r, q, e, next, b, t, x);
      }
      forall s | s in next.q.entries && OnTrack(s, t) && s.fragment.serial < x
        ensures Under(next.q, next.pushed[x])
      {
        PastEndGoes(r, q, e, next, b, t, s, x);
      }
    }
  }

  lemma ShedKeepsState(r: Run, q: Queue, e: Entry, next: Run, b: nat, t: string)
    requires NewLast(r, q, e, t) && Shed(Appended(r, q, e), next, b) && Numbering(next)
    ensures TrackState(next, t)
  {
    hide Gate, Retained, StartedAfter, Entering, ResumesAtKeyframes, Queue.Valid, FirstIsVideo, PastEndUnder;
    EnteringState(r, q, e, t);
    AppendMoves(r, q, e);
    LastAfterPush(r.pushed, e, t);
    var a, last := Appended(r, q, e), LastOn(r.pushed + [e], t);
    if t in q.videoTracks {
      StartedShows(a.q.entries, b, a.q.videoTracks, t);
      if t !in next.q.awaiting {
        var f :| f in next.q.entries && OnTrack(f, t);
        var s := FirstKept(a.q.entries, b, a.q.videoTracks, t, f);
        KeptAnchors(r, q, e, next, b, t, s);
        KeptLast(r, q, e, next, b, t, s);
      }
    }
  }

  lemma KeptAnchors(r: Run, q: Queue, e: Entry, next: Run, b: nat, t: string, s: Entry)
    requires NewLast(r, q, e, t) && Shed(Appended(r, q, e), next, b) && Numbering(next) && t in q.videoTracks
    requires s in next.q.entries && OnTrack(s, t) && s.fragment.keyframe
    ensures Anchored(next.pushed, t, b)
  {
    hide Gate, Retained, StartedAfter, Entering, ResumesAtKeyframes, Queue.Valid, NewLast, TrackState, PastEndUnder;
    var i := s.fragment.serial;
    assert next.pushed[i] == s;
    RetainedFrom(Appended(r, q, e).q.entries, b, q.videoTracks, s);
    forall x: nat | i < x < |next.pushed| && OnTrack(next.pushed[x], t) && PastEnd(next.pushed[x])
      ensures next.pushed[x].fragment.start < b
    {
      PastEndGoes(r, q, e, next, b, t, s, x);
    }
    assert Anchor(next.pushed, t, b, i);
  }

  lemma RetainedFrom(entries: seq<Entry>, b: nat, tracks: set<string>, s: Entry)
    requires s in Retained(entries, b, tracks) && s.role.Media?
    ensures s.fragment.start >= b
  {
  }

  lemma KeptLast(r: Run, q: Queue, e: Entry, next: Run, b: nat, t: string, s: Entry)
    requires NewLast(r, q, e, t) && Shed(Appended(r, q, e), next, b) && Numbering(next) && t in q.videoTracks
    requires s in next.q.entries && OnTrack(s, t) && LastOn(next.pushed, t).Some?
    ensures var p := LastOn(next.pushed, t).value;
      Alive(next, p) || next.pushed[p].fragment.start < b
  {
    hide Gate, Retained, StartedAfter, Entering, ResumesAtKeyframes, Queue.Valid, FirstIsVideo, PastEndUnder, TrackState;
    EnteringState(r, q, e, t);
    AppendMoves(r, q, e);
    LastAfterPush(r.pushed, e, t);
    var a, p := Appended(r, q, e), LastOn(next.pushed, t).value;
    assert next.pushed[s.fragment.serial] == s && s in a.q.entries;
    if next.pushed[p].fragment.start >= b {
      if p < |r.pushed| {
        assert s in r.q.entries;
        LastWasAlive(r, q, e, t, s);
      }
      LaterKept(r, q, e, next, b, t, s, p);
    }
  }

  /** After a shed, a video entry still queued follows one that is alive, unless it is a keyframe. */
  lemma QueuedFollows(r: Run, q: Queue, e: Entry, next: Run, b: nat, t: string, j: nat, m: nat)
    requires NewLast(r, q, e, t) && Shed(Appended(r, q, e), next, b) && Numbering(next) && t in q.videoTracks
    requires !HasGap(next.pushed, t) && m < |next.pushed|
    requires OnTrack(next.pushed[m], t) && next.pushed[m] in next.q.entries && !next.pushed[m].fragment.keyframe
    requires LastOn(next.pushed[..m], t) == Some(j)
    ensures Alive(next, j)
  {
    hide Gate, Retained, StartedAfter, Entering, Queue.Valid, FirstIsVideo, PastEndUnder, TrackState, HasGap, GapAt;
    hide Inv, ResumesAtKeyframes;
    EnteringState(r, q, e, t);
    AppendMoves(r, q, e);
    var a := Appended(r, q, e);
    assert next.pushed[..m][j] == next.pushed[j];
    var s := FirstKept(a.q.entries, b, a.q.videoTracks, t, next.pushed[m]);
    assert next.pushed[s.fragment.serial] == s && s.fragment.serial < m;
    assert next.pushed[..m][s.fragment.serial] == s;
    if next.pushed[j].fragment.start >= b {
      BeforeWasAlive(r, q, e, next, t, s, j, m);
      LaterKept(r, q, e, next, b, t, s, j);
    } else {
      ShedGap(r, q, e, next, b, t, s, j, m);
    }
  }

  /** After a shed, a video entry that is alive follows one that is, or is a keyframe. */
  lemma ShedKeepsRuleAt(r: Run, q: Queue, e: Entry, next: Run, b: nat, t: string, m: nat)
    requires NewLast(r, q, e, t) && Shed(Appended(r, q, e), next, b) && Numbering(next) && t in q.videoTracks
    requires !HasGap(next.pushed, t)
    requires m < |next.pushed| && OnTrack(next.pushed[m], t) && Alive(next, m) && !next.pushed[m].fragment.keyframe
    requires LastOn(next.pushed[..m], t).Some?
    ensures Alive(next, LastOn(next.pushed[..m], t).value)
  {
    hide Gate, Retained, StartedAfter, Entering, Queue.Valid, FirstIsVideo, PastEndUnder, TrackState, HasGap, GapAt;
    EnteringState(r, q, e, t);
    AppendMoves(r, q, e);
    if next.pushed[m] in next.q.entries {
      QueuedFollows(r, q, e, next, b, t, LastOn(next.pushed[..m], t).value, m);
    } else {
      assert next.pushed[..m] == r.pushed[..m] && Alive(r, m);
      assert Alive(r, LastOn(r.pushed[..m], t).value);
    }
  }

  /** The fragment before a kept one, with an older entry queued, was alive unless it is below the old boundary. */
  lemma BeforeWasAlive(r: Run, q: Queue, e: Entry, next: Run, t: string, s: Entry, j: nat, m: nat)
    requires NewLast(r, q, e, t) && next.pushed == r.pushed + [e] && m < |next.pushed|
    requires OnTrack(next.pushed[m], t) && !next.pushed[m].fragment.keyframe && LastOn(next.pushed[..m], t) == Some(j)
    requires s in q.entries + [e] && OnTrack(s, t) && s.fragment.serial < m && next.pushed[m] in q.entries + [e]
    ensures Alive(Appended(r, q, e), j) || (r.q.boundary.Some? && next.pushed[j].fragment.start < r.q.boundary.value)
  {
    hide Gate, Entering, Queue.Valid, FirstIsVideo, PastEndUnder, TrackState;
    EnteringState(r, q, e, t);
    AppendMoves(r, q, e);
    if m < |r.pushed| {
      assert next.pushed[..m] == r.pushed[..m] && Alive(r, m);
    } else {
      assert next.pushed[..m] == r.pushed && s in r.q.entries;
      LastWasAlive(r, q, e, t, s);
    }
  }

  lemma ShedGap(r: Run, q: Queue, e: Entry, next: Run, b: nat, t: string, s: Entry, j: nat, m: nat)
    requires NewLast(r, q, e, t) && Shed(Appended(r, q, e), next, b) && Numbering(next) && t in q.videoTracks
    requires m < |next.pushed| && OnTrack(next.pushed[m], t) && !next.pushed[m].fragment.keyframe
    requires next.pushed[m] in next.q.entries && LastOn(next.pushed[..m], t) == Some(j)
    requires s in next.q.entries && OnTrack(s, t) && s.fragment.keyframe && s.fragment.serial <= j
    requires next.pushed[j].fragment.start < b
    ensures HasGap(next.pushed, t)
  {
    hide Gate, Retained, StartedAfter, Entering, Queue.Valid, NewLast, TrackState, ResumesAtKeyframes, PastEndUnder;
    var i := s.fragment.serial;
    assert next.pushed[i] == s && next.pushed[..m][j] == next.pushed[j];
    RetainedFrom(Appended(r, q, e).q.entries, b, q.videoTracks, s);
    RetainedFrom(Appended(r, q, e).q.entries, b, q.videoTracks, next.pushed[m]);
    forall x: nat | x <= j && MustGo(next.pushed, t, i, j, x)
      ensures next.pushed[x].fragment.start < b
    {
      if x != j {
        if next.pushed[x].fragment.keyframe {
          PastEndKeyGoes(r, q, e, next, b, t, x);
        } else {
          PastEndGoes(r, q, e, next, b, t, s, x);
        }
      }
    }
    assert GapAt(next.pushed, t, i, j, m);
  }

  lemma ShedInvariants(r: Run, q: Queue, e: Entry, next: Run, b: nat, t: string)
    requires NewLast(r, q, e, t) && Shed(Appended(r, q, e), next, b) && !HasGap(next.pushed, t)
    ensures Numbering(next) && ResumesAtKeyframes(next, t) && TrackState(next, t) && PastEndUnder(next, t)
  {
    hide Gate, Retained, StartedAfter, Entering, Queue.Valid, TrackState, PastEndUnder, HasGap;
    EnteringState(r, q, e, t);
    AppendMoves(r, q, e);
    ShedKeepsNumbering(Appended(r, q, e), next, b);
    ShedKeepsPastEnd(r, q, e, next, b, t);
    ShedKeepsState(r, q, e, next, b, t);
    forall m: nat | m < |next.pushed| && OnTrack(next.pushed[m], t) && Alive(next, m)
      ensures var j := LastOn(next.pushed[..m], t);
        j.Some? ==> Alive(next, j.value) || next.pushed[m].fragment.keyframe
    {
      if LastOn(next.pushed[..m], t).Some? && !next.pushed[m].fragment.keyframe {
        OnTrackKnown(next.pushed, t, m);
        ShedKeepsRuleAt(r, q, e, next, b, t, m);
      }
    }
  }

  lemma OnTrackKnown(pushed: seq<Entry>, t: string, m: nat)
    requires m < |pushed| && OnTrack(pushed[m], t)
    ensures LastOn(pushed, t).Some?
  {
  }

  // ---- one step, and every run

  /** The queue after a shed of all its entries to its new boundary. */
  ghost predicate IsShed(q: Queue, entries: seq<Entry>, next: Queue) {
    next.boundary.Some? && (q.boundary.Some? ==> q.boundary.value <= next.boundary.value) &&
    (forall e | e in next.entries && e.role.Media? :: !PastEnd(e)) &&
    next == q.(entries := Retained(entries, next.boundary.value, q.videoTracks), boundary := next.boundary,
               awaiting := q.videoTracks - StartedAfter(entries, next.boundary.value, q.videoTracks))
  }

  /** An entry is refused for good, fits, or makes the queue shed. */
  lemma EnterOutcome(q: Queue, e: Entry)
    requires q.Valid() && Admissible(q, e) && !q.exceeded
    ensures var next, all := Enter(q, e).0, q.entries + [e];
      next == q.(exceeded := true) ||
      (next == q.(entries := all) && !(e.role.Media? && PastEnd(e))) ||
      (!next.exceeded && IsShed(q, all, next))
  {
    hide Retained, StartedAfter, TotalBytes;
    assert e in q.entries + [e];
  }

  lemma EnterKeepsInv(r: Run, q: Queue, e: Entry, t: string)
    requires Inv(r, t) && !r.q.exceeded && Entering(r, q, e, t) && !HasGap(r.pushed + [e], t)
    ensures Inv(Run(Enter(q, e).0, r.pushed + [e], r.delivered), t)
  {
    hide Gate, Enter, Fits, TrackState, Numbering, Queue.Valid, PastEndUnder, Entering, ResumesAtKeyframes, HasGap;
    var next := Run(Enter(q, e).0, r.pushed + [e], r.delivered);
    EnteringState(r, q, e, t);
    EnterKeepsValid(q, e);
    EnterOutcome(q, e);
    EnteringSerial(r, q, e, t);
    if next.q == q.(exceeded := true) {
      UnchangedKeepsRule(r, e, next.q, t);
    } else if next == Appended(r, q, e) && !(e.role.Media? && PastEnd(e)) {
      AppendKeepsRule(r, q, e, t);
      FitKeepsState(r, q, e, t);
    } else {
      ShedInvariants(r, q, e, next, next.q.boundary.value, t);
    }
  }

  lemma EnteringSerial(r: Run, q: Queue, e: Entry, t: string)
    requires Entering(r, q, e, t)
    ensures e.fragment.serial == |r.pushed|
  {
  }

  lemma PushKeepsInv(r: Run, f: Fragment, role: Role, t: string)
    requires Inv(r, t) && ValidFragment(f)
    requires FirstIsVideo(Step(r, PushOp(f, role)).pushed, t) && !HasGap(Step(r, PushOp(f, role)).pushed, t)
    ensures Inv(Step(r, PushOp(f, role)), t)
  {
    hide Gate, Enter, Fits, TrackState, Numbering, Queue.Valid, ResumesAtKeyframes, PastEndUnder, HasGap, FirstIsVideo;
    var e := Numbered(r, f, role);
    if r.q.exceeded {
      UnchangedKeepsRule(r, e, r.q, t);
    } else if role.Initialization? {
      EnterKeepsInv(r, r.q, e, t);
    } else {
      var (g, drop) := Gate(r.q, e.fragment);
      if drop {
        DropKeepsInv(r, e, t);
      } else {
        EnterKeepsInv(r, g, e, t);
      }
    }
  }

  lemma StartInv(q: Queue, t: string)
    requires Starts(q)
    ensures Inv(After(q, []), t)
  {
  }

  lemma {:induction false} AfterInv(q: Queue, ops: seq<Op>, t: string)
    requires Starts(q) && ValidOps(ops)
    requires FirstIsVideo(After(q, ops).pushed, t) && !HasGap(After(q, ops).pushed, t)
    ensures Inv(After(q, ops), t)
  {
    hide Step, Inv, HasGap, FirstIsVideo;
    if ops == [] {
      StartInv(q, t);
    } else {
      var n := |ops| - 1;
      var r := After(q, ops[..n]);
      PushedGrows(r, ops[n]);
      PrefixIsFine(r.pushed, After(q, ops).pushed, t);
      AfterInv(q, ops[..n], t);
      StepKeepsInv(r, ops[n], t);
    }
  }

  lemma StepKeepsInv(r: Run, op: Op, t: string)
    requires Inv(r, t) && (op.PushOp? ==> ValidFragment(op.fragment))
    requires FirstIsVideo(Step(r, op).pushed, t) && !HasGap(Step(r, op).pushed, t)
    ensures Inv(Step(r, op), t)
  {
    hide Inv, Push, Pop, HasGap, FirstIsVideo;
    match op {
      case PushOp(f, role) => PushKeepsInv(r, f, role, t);
      case PopOp => PopKeepsInv(r, t);
    }
  }

  lemma PushedGrows(r: Run, op: Op)
    ensures r.pushed <= Step(r, op).pushed
  {
    hide Push, Pop;
  }

  lemma GapStays(a: seq<Entry>, b: seq<Entry>, t: string)
    requires a <= b && HasGap(a, t)
    ensures HasGap(b, t)
  {
    assert forall i: nat | i < |a| :: a[i] == b[i] && a[..i] == b[..i];
    var i: nat, j: nat, m: nat :| GapAt(a, t, i, j, m);
    assert forall x: nat | x <= j && MustGo(b, t, i, j, x) :: MustGo(a, t, i, j, x);
    assert GapAt(b, t, i, j, m);
  }

  lemma PrefixIsFine(a: seq<Entry>, b: seq<Entry>, t: string)
    requires a <= b && FirstIsVideo(b, t) && !HasGap(b, t)
    ensures FirstIsVideo(a, t) && !HasGap(a, t)
  {
    hide HasGap;
    assert forall i: nat | i < |a| :: a[i] == b[i] && a[..i] == b[..i];
    if HasGap(a, t) {
      GapStays(a, b, t);
    }
  }

  /**
   * Over every run from an empty queue: on each track that starts out recognisable as
   * video and has no gap, a fragment that was delivered or is still queued, and whose
   * predecessor was dropped, is a keyframe.
   */
  lemma VideoResumesAtKeyframes(q: Queue, ops: seq<Op>, t: string)
    requires Starts(q) && ValidOps(ops)
    requires FirstIsVideo(After(q, ops).pushed, t) && !HasGap(After(q, ops).pushed, t)
    ensures ResumesAtKeyframes(After(q, ops), t)
  {
    AfterInv(q, ops, t);
  }
}
