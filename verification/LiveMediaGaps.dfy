/**
 * When the keyframe rule of the live media queue holds: a track that starts out
 * recognisable as video resumes only at keyframes in every run, whatever the
 * limits, the pops and the other tracks, if and only if its fragments have no gap.
 */
module LiveMediaGaps {
  import opened Bytes
  import opened LiveMedia
  import opened LiveMediaRuns

  /** The media fragments pushed on a track, in order. */
  function TrackOf(ops: seq<Op>, t: string): seq<Fragment> {
    if ops == [] then []
    else
      var before, op := TrackOf(ops[..|ops| - 1], t), ops[|ops| - 1];
      if op.PushOp? && op.role.Media? && op.fragment.track == t then before + [op.fragment] else before
  }

  predicate CannotBeHeld(f: Fragment) {
    End(f) > MaxU64
  }

  /**
   * A keyframe `i`, and later two neighbours of which the second is no keyframe and the
   * first starts before it and before the keyframe. Fragments whose end does not fit 64
   * bits must start before both as well: keyframes up to there, and all behind `i`.
   */
  ghost predicate GapIn(fs: seq<Fragment>, i: nat, j: nat) {
    i < j && j + 1 < |fs| && fs[i].keyframe && !CannotBeHeld(fs[i]) &&
    !fs[j + 1].keyframe && !CannotBeHeld(fs[j + 1]) &&
    forall x: nat | x <= j && (x == j || (CannotBeHeld(fs[x]) && (fs[x].keyframe || i < x))) ::
      fs[x].start < fs[i].start && fs[x].start < fs[j + 1].start
  }

  ghost predicate Gappy(fs: seq<Fragment>) {
    exists i: nat, j: nat :: GapIn(fs, i, j)
  }

  ghost predicate VideoTrack(fs: seq<Fragment>, t: string) {
    (forall f | f in fs :: f.track == t && ValidFragment(f)) && (fs != [] ==> IsVideoFragment(fs[0]))
  }

  // ---- the track among everything pushed

  /** Where the fragments of a track stand among the pushes. */
  ghost function Places(pushed: seq<Entry>, t: string): (r: seq<nat>)
    ensures forall y: nat | y < |r| :: r[y] < |pushed| && OnTrack(pushed[r[y]], t)
    ensures forall x, y | 0 <= x < y < |r| :: r[x] < r[y]
    ensures forall i: nat | i < |pushed| && OnTrack(pushed[i], t) :: i in r
  {
    if pushed == [] then []
    else
      var n := |pushed| - 1;
      var before := Places(pushed[..n], t);
      assert forall y: nat | y < |before| :: pushed[before[y]] == pushed[..n][before[y]];
      assert forall i: nat | i < n && OnTrack(pushed[i], t) :: pushed[..n][i] == pushed[i] && i in before;
      if OnTrack(pushed[n], t) then before + [n] else before
  }

  /** The same fragment, whatever its number. */
  predicate SameAs(e: Entry, f: Fragment) {
    e.fragment == f.(serial := e.fragment.serial)
  }

  ghost predicate Mirrors(pushed: seq<Entry>, fs: seq<Fragment>, t: string) {
    var places := Places(pushed, t);
    |places| == |fs| && forall y: nat | y < |fs| :: SameAs(pushed[places[y]], fs[y])
  }

  lemma PlacesAppend(pushed: seq<Entry>, t: string, e: Entry)
    ensures Places(pushed + [e], t) == Places(pushed, t) + if OnTrack(e, t) then [|pushed|] else []
  {
    assert (pushed + [e])[..|pushed|] == pushed;
  }

  lemma MirrorsAppend(pushed: seq<Entry>, fs: seq<Fragment>, t: string, e: Entry, f: Fragment)
    requires Mirrors(pushed, fs, t) && SameAs(e, f)
    ensures Mirrors(pushed + [e], if e.role.Media? && f.track == t then fs + [f] else fs, t)
  {
    hide Places;
    PlacesAppend(pushed, t, e);
    var all, places, now := pushed + [e], Places(pushed, t), if OnTrack(e, t) then fs + [f] else fs;
    forall y: nat | y < |now|
      ensures SameAs(all[Places(all, t)[y]], now[y])
    {
      if y < |fs| {
        assert Places(all, t)[y] == places[y] && all[places[y]] == pushed[places[y]] && now[y] == fs[y];
        assert SameAs(pushed[places[y]], fs[y]);
      }
    }
  }

  lemma {:induction false} RunMirrors(q: Queue, ops: seq<Op>, t: string)
    ensures Mirrors(After(q, ops).pushed, TrackOf(ops, t), t)
  {
    hide Mirrors, Push, Pop;
    if ops == [] {
      NothingMirrored(t);
    } else {
      var n := |ops| - 1;
      RunMirrors(q, ops[..n], t);
      var r := After(q, ops[..n]);
      if ops[n].PushOp? {
        var e := Numbered(r, ops[n].fragment, ops[n].role);
        MirrorsAppend(r.pushed, TrackOf(ops[..n], t), t, e, ops[n].fragment);
      }
    }
  }

  lemma NothingMirrored(t: string)
    ensures Mirrors([], [], t)
  {
  }

  lemma Earlier(pushed: seq<Entry>, t: string, m: nat, i: nat)
    requires i < m <= |pushed| && OnTrack(pushed[i], t)
    ensures LastOn(pushed[..m], t).Some? && i <= LastOn(pushed[..m], t).value
  {
    assert pushed[..m][i] == pushed[i];
  }

  /** Neighbours among the pushes of a track are neighbours of the track. */
  lemma NextPlace(pushed: seq<Entry>, t: string, j: nat, m: nat) returns (b: nat)
    requires m < |pushed| && OnTrack(pushed[m], t) && LastOn(pushed[..m], t) == Some(j)
    ensures var places := Places(pushed, t);
      b + 1 < |places| && places[b] == j && places[b + 1] == m
  {
    var places := Places(pushed, t);
    assert pushed[..m][j] == pushed[j];
    b :| 0 <= b < |places| && places[b] == j;
    var c: nat :| c < |places| && places[c] == m;
    if b + 1 < c {
      Earlier(pushed, t, m, places[b + 1]);
    }
  }

  lemma Mirrored(pushed: seq<Entry>, fs: seq<Fragment>, t: string, y: nat)
    requires Mirrors(pushed, fs, t) && y < |fs|
    ensures |Places(pushed, t)| == |fs|
    ensures var p := Places(pushed, t)[y];
      (forall z: nat | y < z < |fs| :: p < Places(pushed, t)[z]) &&
      OnTrack(pushed[p], t) && pushed[p].fragment == fs[y].(serial := pushed[p].fragment.serial)
  {
  }

  /** What must go in a gap of the track must go in the gap among the pushes. */
  lemma GapBelow(pushed: seq<Entry>, fs: seq<Fragment>, t: string, a: nat, b: nat, m: nat, x: nat)
    requires Mirrors(pushed, fs, t) && x <= b < |fs| && a < |fs|
    requires GapAt(pushed, t, Places(pushed, t)[a], Places(pushed, t)[b], m)
    requires x == b || (CannotBeHeld(fs[x]) && (fs[x].keyframe || a < x))
    ensures fs[x].start < fs[a].start && fs[x].start < pushed[m].fragment.start
  {
    hide Places, Mirrors, LastOn;
    Mirrored(pushed, fs, t, a);
    Mirrored(pushed, fs, t, b);
    Mirrored(pushed, fs, t, x);
    assert MustGo(pushed, t, Places(pushed, t)[a], Places(pushed, t)[b], Places(pushed, t)[x]);
  }

  lemma GapMirrored(pushed: seq<Entry>, fs: seq<Fragment>, t: string, a: nat, b: nat)
    requires Mirrors(pushed, fs, t) && a < |fs| && b + 1 < |fs|
    requires GapAt(pushed, t, Places(pushed, t)[a], Places(pushed, t)[b], Places(pushed, t)[b + 1])
    ensures GapIn(fs, a, b)
  {
    hide Places, Mirrors, LastOn, MustGo;
    Mirrored(pushed, fs, t, a);
    Mirrored(pushed, fs, t, b);
    Mirrored(pushed, fs, t, b + 1);
    forall x: nat | x <= b && (x == b || (CannotBeHeld(fs[x]) && (fs[x].keyframe || a < x)))
      ensures fs[x].start < fs[a].start && fs[x].start < fs[b + 1].start
    {
      GapBelow(pushed, fs, t, a, b, Places(pushed, t)[b + 1], x);
    }
  }

  /** A gap among the pushes is a gap of the track. */
  lemma GapProjects(pushed: seq<Entry>, fs: seq<Fragment>, t: string)
    requires Mirrors(pushed, fs, t) && HasGap(pushed, t)
    ensures Gappy(fs)
  {
    hide Places, LastOn, MustGo, GapIn;
    var i: nat, j: nat, m: nat :| GapAt(pushed, t, i, j, m);
    var places := Places(pushed, t);
    var a: nat :| a < |places| && places[a] == i;
    var b := NextPlace(pushed, t, j, m);
    GapMirrored(pushed, fs, t, a, b);
  }

  lemma StartsVideo(pushed: seq<Entry>, fs: seq<Fragment>, t: string)
    requires Mirrors(pushed, fs, t) && VideoTrack(fs, t)
    ensures FirstIsVideo(pushed, t)
  {
    forall i: nat | i < |pushed| && OnTrack(pushed[i], t) && LastOn(pushed[..i], t).None?
      ensures IsVideoFragment(pushed[i].fragment)
    {
      var places := Places(pushed, t);
      var y: nat :| y < |places| && places[y] == i;
      if y > 0 {
        Earlier(pushed, t, i, places[0]);
      }
    }
  }

  // ---- a run that breaks the rule on a track with a gap

  /** A keyframe of another track, of no duration, at the boundary. */
  function Companion(t: string, b: nat, size: nat): Fragment {
    Fragment(0, t + "k", b, 0, size, true, None)
  }

  /** A fragment that fills the queue, just below the boundary. */
  function Filler(t: string, b: nat): Fragment
    requires b > 0
  {
    Fragment(0, t + "a", b - 1, 0, MaxU64, false, None)
  }

  /** Unlimited but for the byte counter. */
  const Widest := Queue(MaxU64, MaxI64, [], {}, {}, None, false)

  /** Sheds the filler to the companion: the boundary is then `b`. */
  function Opening(t: string, b: nat): seq<Op>
    requires b > 0
  {
    [PushOp(Companion(t, b, 1), Media), PushOp(Filler(t, b), Media), PopOp]
  }

  function Round(t: string, b: nat, f: Fragment): seq<Op> {
    [PushOp(Companion(t, b, 0), Media), PushOp(f, Media), PopOp, PopOp]
  }

  function Rounds(fs: seq<Fragment>, t: string, b: nat): seq<Op>
    requires b > 0
  {
    if fs == [] then Opening(t, b)
    else Rounds(fs[..|fs| - 1], t, b) + Round(t, b, fs[|fs| - 1])
  }

  /** Between two rounds: nothing queued, and the companion track is not waiting for a keyframe. */
  ghost predicate Between(r: Run, t: string, b: nat) {
    r.q == Queue(MaxU64, MaxI64, [], r.q.videoTracks, r.q.awaiting, Some(b), false) &&
    t + "k" in r.q.videoTracks && t + "k" !in r.q.awaiting && r.q.awaiting <= r.q.videoTracks &&
    (forall i: nat | i < |r.pushed| :: r.pushed[i].fragment.serial == i) &&
    forall e | e in r.delivered :: e.fragment.serial < |r.pushed|
  }

  lemma AfterTwo(q: Queue, ops: seq<Op>, a: Op, b: Op)
    ensures After(q, ops + [a, b]) == Step(Step(After(q, ops), a), b)
  {
    hide Step;
    var all := ops + [a, b];
    assert all[..|all| - 1] == ops + [a];
    assert (ops + [a])[..|ops|] == ops;
  }

  lemma OneFits(e: Entry)
    requires e.fragment.size <= MaxU64 && End(e.fragment) <= MaxU64
    ensures Fits(MaxU64, MaxI64, [e])
  {
    assert [e][..0] == [];
  }

  lemma TwoFit(k: Entry, e: Entry)
    requires k.fragment.size == 0 && End(k.fragment) <= MaxU64 && e.fragment.size <= MaxU64 && e.role.Media?
    ensures Fits(MaxU64, MaxI64, [k, e]) <==> !PastEnd(e)
  {
    assert [k, e] == [k] + [e] && [k] == [] + [k];
    TotalOfAppend([k], e);
    TotalOfAppend([], k);
    assert e in [k, e];
  }

  /** What a shed to the companion keeps of it and a fragment behind it. */
  lemma RetainedBoth(k: Entry, e: Entry, b: nat, tracks: set<string>)
    requires k.role.Media? && k.fragment.keyframe && k.fragment.start == b && k.fragment.track in tracks
    requires e.role.Media? && e.fragment.track != k.fragment.track
    requires e.fragment.start < b || (e.fragment.track in tracks && !e.fragment.keyframe)
    ensures Retained([k, e], b, tracks) == [k] && StartedAfter([k, e], b, tracks) == {k.fragment.track}
  {
    assert [k, e][..1] == [k] && [k][..0] == [];
    assert Retained([k], b, tracks) == [k] && StartedAfter([k], b, tracks) == {k.fragment.track};
  }

  /** An entry that the queue cannot hold together with the companion sheds back to the companion. */
  lemma ShedsToCompanion(q: Queue, k: Entry, e: Entry)
    requires q.maxBytes == MaxU64 && q.maxDuration == MaxI64 && q.entries == [k]
    requires k.role.Media? && k.fragment.keyframe && k.fragment.track in q.videoTracks
    requires k.fragment.size <= MaxU64 && End(k.fragment) <= MaxU64
    requires e.role.Media? && e.fragment.track != k.fragment.track && !e.fragment.keyframe
    requires e.fragment.start < k.fragment.start || e.fragment.track in q.videoTracks
    requires !Fits(MaxU64, MaxI64, [k, e])
    ensures Enter(q, e).0 == q.(boundary := Some(k.fragment.start), awaiting := q.videoTracks - {k.fragment.track})
  {
    hide Fits;
    var entries, b := q.entries + [e], k.fragment.start;
    assert entries == [k, e];
    RetainedBoth(k, e, b, q.videoTracks);
    OneFits(k);
    assert KeyTimes(entries) == {b} by {
      assert k in entries;
    }
    assert Recovers(q, entries, b);
    RecoveryUnique(q, entries, Some(b));
  }

  lemma OtherTracks(t: string)
    ensures t != t + "k" && t != t + "a" && t + "k" != t + "a"
  {
    assert (t + "k")[|t|] == 'k' && (t + "a")[|t|] == 'a';
  }

  lemma TooManyBytes(entries: seq<Entry>)
    requires TotalBytes(entries) > MaxU64
    ensures !Fits(MaxU64, MaxI64, entries)
  {
  }

  lemma OpeningCompanion(k: Entry, t: string, b: nat)
    requires b <= MaxU64 && k == Entry(Companion(t, b, 1), Media)
    ensures Push(Widest, k.fragment, Media).0 == Widest.(entries := [k], videoTracks := {t + "k"})
  {
    hide Fits;
    OneFits(k);
    assert [] + [k] == [k];
  }

  lemma FillerOverflows(k: Entry, e: Entry)
    requires k.fragment.size > 0 && e.fragment.size == MaxU64
    ensures !Fits(MaxU64, MaxI64, [k, e])
  {
    hide Fits;
    assert [k, e] == [k] + [e] && [k] == [] + [k];
    TotalOfAppend([k], e);
    TotalOfAppend([], k);
    TooManyBytes([k, e]);
  }

  lemma FillerPasses(q: Queue, f: Fragment)
    requires q.boundary.None? && f.track !in q.videoTracks && !IsVideoFragment(f)
    ensures Gate(q, f) == (q, false)
  {
  }

  lemma OpeningFiller(q: Queue, k: Entry, e: Entry, t: string, b: nat)
    requires 0 < b <= MaxU64 && q == Widest.(entries := [k], videoTracks := {t + "k"})
    requires k == Entry(Companion(t, b, 1), Media) && e == Entry(Filler(t, b).(serial := 1), Media)
    ensures Push(q, e.fragment, Media).0 == q.(boundary := Some(b))
  {
    hide Fits, Enter, Gate;
    OtherTracks(t);
    FillerPasses(q, e.fragment);
    FillerOverflows(k, e);
    ShedsToCompanion(q, k, e);
    assert q.videoTracks - {t + "k"} == {};
  }

  /** The opening leaves the queue empty with the boundary set. */
  lemma OpeningDone(t: string, b: nat)
    requires 0 < b <= MaxU64
    ensures var r := After(Widest, Opening(t, b));
      Between(r, t, b) && |r.pushed| == 2 && t !in r.q.videoTracks
  {
    hide Push;
    var start, ops := Run(Widest, [], []), Opening(t, b);
    var k, e := Numbered(start, Companion(t, b, 1), Media), Entry(Filler(t, b).(serial := 1), Media);
    OtherTracks(t);
    OpeningCompanion(k, t, b);
    OpeningFiller(Push(Widest, k.fragment, Media).0, k, e, t, b);
    AfterTwo(Widest, [], ops[0], ops[1]);
    assert ops[..2] == [] + [ops[0], ops[1]];
  }

  lemma CompanionEnters(r: Run, t: string, b: nat)
    requires Between(r, t, b) && b <= MaxU64
    ensures var k := Numbered(r, Companion(t, b, 0), Media);
      Step(r, PushOp(Companion(t, b, 0), Media)) == Run(r.q.(entries := [k]), r.pushed + [k], r.delivered)
  {
    hide Fits;
    var k := Numbered(r, Companion(t, b, 0), Media);
    OneFits(k);
    assert [] + [k] == [k];
    assert r.q.videoTracks + {t + "k"} == r.q.videoTracks;
  }

  /** What the second push of a round does to the queue, by the fragment's time and kind. */
  ghost predicate Taken(q: Queue, next: Queue, k: Entry, e: Entry, b: nat) {
    var f := e.fragment;
    next == q.(entries := next.entries, videoTracks := q.videoTracks + {f.track}, awaiting := next.awaiting) &&
    next.awaiting <= next.videoTracks && k.fragment.track !in next.awaiting &&
    (next.entries == [k] || next.entries == [k, e]) &&
    (f.start < b ==>
       next.entries == [k] && (f.track in next.awaiting <==> f.track in q.awaiting || f.track !in q.videoTracks)) &&
    (f.start >= b && !CannotBeHeld(f) && (f.keyframe || (f.track in q.videoTracks && f.track !in q.awaiting)) ==>
       next.entries == [k, e] && f.track !in next.awaiting)
  }

  lemma FragmentEnters(q: Queue, t: string, b: nat, k: Entry, e: Entry)
    requires q == Queue(MaxU64, MaxI64, [k], q.videoTracks, q.awaiting, Some(b), false) && b <= MaxU64
    requires q.awaiting <= q.videoTracks && k.fragment.track in q.videoTracks && k.fragment.track !in q.awaiting
    requires k == Entry(Companion(t, b, 0).(serial := k.fragment.serial), Media) && e.role.Media? && e.fragment.track == t
    requires ValidFragment(e.fragment) && (t in q.videoTracks || IsVideoFragment(e.fragment))
    requires CannotBeHeld(e.fragment) && e.fragment.keyframe ==> e.fragment.start < b
    ensures Taken(q, Push(q, e.fragment, Media).0, k, e, b)
  {
    hide Fits, Enter;
    var (g, drop) := Gate(q, e.fragment);
    OtherTracks(t);
    if !drop {
      TwoFit(k, e);
      if PastEnd(e) {
        ShedsToCompanion(g, k, e);
      } else {
        FittingEnters(g, k, e);
      }
    }
  }

  lemma FittingEnters(q: Queue, k: Entry, e: Entry)
    requires q.maxBytes == MaxU64 && q.maxDuration == MaxI64 && q.entries == [k] && Fits(MaxU64, MaxI64, [k, e])
    ensures Enter(q, e) == (q.(entries := [k, e]), Accepted)
  {
    assert q.entries + [e] == [k, e];
  }

  /** What one round does: the companion always comes out, the fragment when it was let in. */
  ghost predicate RoundDone(r: Run, next: Run, t: string, b: nat, f: Fragment) {
    var k := Numbered(r, Companion(t, b, 0), Media);
    var e := Entry(f.(serial := |r.pushed| + 1), Media);
    Between(next, t, b) && t in next.q.videoTracks && next.pushed == r.pushed + [k, e] &&
    (next.delivered == r.delivered + [k] || next.delivered == r.delivered + [k, e]) &&
    (f.start < b ==>
       next.delivered == r.delivered + [k] && (t in next.q.awaiting <==> t in r.q.awaiting || t !in r.q.videoTracks)) &&
    (f.start >= b && !CannotBeHeld(f) && (f.keyframe || (t in r.q.videoTracks && t !in r.q.awaiting)) ==>
       next.delivered == r.delivered + [k, e] && t !in next.q.awaiting)
  }

  lemma RoundMoves(r: Run, t: string, b: nat, f: Fragment)
    requires Between(r, t, b) && b <= MaxU64 && f.track == t && ValidFragment(f)
    requires t in r.q.videoTracks || IsVideoFragment(f)
    requires CannotBeHeld(f) && f.keyframe ==> f.start < b
    ensures var ops := Round(t, b, f);
      RoundDone(r, Step(Step(Step(Step(r, ops[0]), ops[1]), ops[2]), ops[3]), t, b, f)
  {
    hide Push;
    var k := Numbered(r, Companion(t, b, 0), Media);
    var e := Entry(f.(serial := |r.pushed| + 1), Media);
    CompanionEnters(r, t, b);
    var one := Step(r, PushOp(Companion(t, b, 0), Media));
    FragmentEnters(one.q, t, b, k, e);
    var two := Step(one, PushOp(f, Media));
    assert two == Run(two.q, r.pushed + [k, e], r.delivered);
    assert [k][1..] == [] && [k, e][1..] == [e] && [e][1..] == [];
    var next := Step(Step(two, PopOp), PopOp);
    assert next == Run(two.q.(entries := []), r.pushed + [k, e], r.delivered + two.q.entries) by {
      assert r.delivered + [k, e] == (r.delivered + [k]) + [e];
    }
    assert forall i: nat | i < |r.pushed| :: next.pushed[i] == r.pushed[i];
  }

  lemma AfterRound(q: Queue, ops: seq<Op>, t: string, b: nat, f: Fragment)
    ensures var r, round := After(q, ops), Round(t, b, f);
      After(q, ops + round) == Step(Step(Step(Step(r, round[0]), round[1]), round[2]), round[3])
  {
    hide Step, After;
    var round := Round(t, b, f);
    AfterTwo(q, ops, round[0], round[1]);
    AfterTwo(q, ops + [round[0], round[1]], round[2], round[3]);
    assert ops + [round[0], round[1]] + [round[2], round[3]] == ops + round;
  }

  /** The boundary that a gap calls for. */
  function GapBoundary(fs: seq<Fragment>, i: nat, j: nat): nat
    requires i < |fs| && j + 1 < |fs|
  {
    if fs[i].start < fs[j + 1].start then fs[i].start else fs[j + 1].start
  }

  /** After `n` rounds: from the keyframe on the track is not waiting; `j` is lost, and the next one comes out. */
  ghost predicate Progress(r: Run, fs: seq<Fragment>, i: nat, j: nat, n: nat, t: string, b: nat)
    requires n <= |fs|
  {
    Between(r, t, b) && |r.pushed| == 2 * n + 2 &&
    (t in r.q.videoTracks <==> n > 0) && (n > i ==> t !in r.q.awaiting) &&
    (n > j ==> PushedAt(r, fs, j) && r.pushed[2 * j + 3] !in r.delivered) &&
    (n > j + 1 ==> PushedAt(r, fs, j + 1) && r.pushed[2 * j + 5] in r.delivered && !OnTrack(r.pushed[2 * j + 4], t))
  }

  ghost predicate PushedAt(r: Run, fs: seq<Fragment>, x: nat) {
    x < |fs| && 2 * x + 3 < |r.pushed| && r.pushed[2 * x + 3] == Entry(fs[x].(serial := 2 * x + 3), Media)
  }

  lemma ProgressMoves(r: Run, next: Run, fs: seq<Fragment>, i: nat, j: nat, n: nat, t: string, b: nat)
    requires GapIn(fs, i, j) && VideoTrack(fs, t) && b == GapBoundary(fs, i, j) && n < j + 2
    requires Progress(r, fs, i, j, n, t, b) && RoundDone(r, next, t, b, fs[n])
    ensures Progress(next, fs, i, j, n + 1, t, b)
  {
    var f := fs[n];
    var k := Numbered(r, Companion(t, b, 0), Media);
    var e := Entry(f.(serial := |r.pushed| + 1), Media);
    assert next.pushed[|r.pushed|] == k && next.pushed[|r.pushed| + 1] == e;
    assert forall x: nat | x < |r.pushed| :: next.pushed[x] == r.pushed[x];
    OtherTracks(t);
    assert e !in r.delivered;
    assert n == j + 1 ==> r.pushed[2 * j + 3] != k && r.pushed[2 * j + 3] != e;
  }

  lemma {:induction false} RoundsProgress(fs: seq<Fragment>, i: nat, j: nat, n: nat, t: string, b: nat)
    requires GapIn(fs, i, j) && VideoTrack(fs, t) && b == GapBoundary(fs, i, j) && n <= j + 2
    ensures b > 0 && Progress(After(Widest, Rounds(fs[..n], t, b)), fs, i, j, n, t, b)
  {
    hide After, Step, RoundDone;
    assert fs[j].start < b <= MaxU64;
    if n == 0 {
      OpeningDone(t, b);
    } else {
      RoundsProgress(fs, i, j, n - 1, t, b);
      var ops, f := Rounds(fs[..n - 1], t, b), fs[n - 1];
      assert fs[..n][..n - 1] == fs[..n - 1];
      assert Rounds(fs[..n], t, b) == ops + Round(t, b, f);
      AfterRound(Widest, ops, t, b, f);
      RoundMoves(After(Widest, ops), t, b, f);
      ProgressMoves(After(Widest, ops), After(Widest, ops + Round(t, b, f)), fs, i, j, n - 1, t, b);
    }
  }

  // ---- the rule stays broken

  ghost predicate Broken(r: Run, t: string, j: nat, m: nat) {
    (forall i: nat | i < |r.pushed| :: r.pushed[i].fragment.serial == i) &&
    m < |r.pushed| && OnTrack(r.pushed[m], t) && !r.pushed[m].fragment.keyframe && r.pushed[m] in r.delivered &&
    LastOn(r.pushed[..m], t) == Some(j) && r.pushed[j] !in r.delivered && r.pushed[j] !in r.q.entries
  }

  lemma BrokenBreaks(r: Run, t: string, j: nat, m: nat)
    requires Broken(r, t, j, m)
    ensures !ResumesAtKeyframes(r, t)
  {
    assert Alive(r, m) && !Alive(r, j);
  }

  lemma PushAddsOne(q: Queue, f: Fragment, role: Role)
    ensures forall e | e in Push(q, f, role).0.entries :: e in q.entries || e == Entry(f, role)
  {
    hide Fits;
  }

  lemma StepKeepsBroken(r: Run, f: Fragment, t: string, j: nat, m: nat)
    requires Broken(r, t, j, m)
    ensures Broken(Step(r, PushOp(f, Media)), t, j, m)
  {
    hide Push;
    var e := Numbered(r, f, Media);
    PushAddsOne(r.q, e.fragment, Media);
    var next := Step(r, PushOp(f, Media));
    assert next.pushed[..m] == r.pushed[..m];
    assert forall i: nat | i < |r.pushed| :: next.pushed[i] == r.pushed[i];
  }

  function Pushes(fs: seq<Fragment>): seq<Op> {
    if fs == [] then [] else Pushes(fs[..|fs| - 1]) + [PushOp(fs[|fs| - 1], Media)]
  }

  lemma {:induction false} PushesKeepBroken(q: Queue, ops: seq<Op>, fs: seq<Fragment>, t: string, j: nat, m: nat)
    requires Broken(After(q, ops), t, j, m)
    ensures Broken(After(q, ops + Pushes(fs)), t, j, m)
  {
    hide Broken, Step;
    if fs == [] {
      assert ops + Pushes(fs) == ops;
    } else {
      var n := |fs| - 1;
      PushesKeepBroken(q, ops, fs[..n], t, j, m);
      var all := ops + Pushes(fs);
      assert all[..|all| - 1] == ops + Pushes(fs[..n]);
      StepKeepsBroken(After(q, ops + Pushes(fs[..n])), fs[n], t, j, m);
    }
  }

  // ---- the track of the run built

  lemma TrackOfMore(ops: seq<Op>, op: Op, t: string)
    ensures TrackOf(ops + [op], t) ==
      if op.PushOp? && op.role.Media? && op.fragment.track == t then TrackOf(ops, t) + [op.fragment] else TrackOf(ops, t)
  {
    assert (ops + [op])[..|ops|] == ops;
  }

  lemma TrackOfRound(ops: seq<Op>, t: string, b: nat, f: Fragment)
    requires f.track == t
    ensures TrackOf(ops + Round(t, b, f), t) == TrackOf(ops, t) + [f]
  {
    hide TrackOf;
    OtherTracks(t);
    var k := PushOp(Companion(t, b, 0), Media);
    TrackOfMore(ops, k, t);
    TrackOfMore(ops + [k], PushOp(f, Media), t);
    TrackOfMore(ops + [k] + [PushOp(f, Media)], PopOp, t);
    TrackOfMore(ops + [k] + [PushOp(f, Media)] + [PopOp], PopOp, t);
    assert ops + [k] + [PushOp(f, Media)] + [PopOp] + [PopOp] == ops + Round(t, b, f);
  }

  lemma TrackOfOpening(t: string, b: nat)
    requires b > 0
    ensures TrackOf(Opening(t, b), t) == []
  {
    hide TrackOf;
    OtherTracks(t);
    var k, e := PushOp(Companion(t, b, 1), Media), PushOp(Filler(t, b), Media);
    TrackOfNothing(t);
    TrackOfMore([], k, t);
    TrackOfMore([] + [k], e, t);
    TrackOfMore([] + [k] + [e], PopOp, t);
    assert [] + [k] + [e] + [PopOp] == Opening(t, b);
  }

  lemma TrackOfNothing(t: string)
    ensures TrackOf([], t) == []
  {
  }

  lemma {:induction false} TrackOfRounds(fs: seq<Fragment>, t: string, b: nat)
    requires 0 < b <= MaxU64 && forall f | f in fs :: f.track == t && ValidFragment(f)
    ensures TrackOf(Rounds(fs, t, b), t) == fs && ValidOps(Rounds(fs, t, b))
  {
    hide TrackOf;
    if fs == [] {
      TrackOfOpening(t, b);
    } else {
      var n := |fs| - 1;
      TrackOfRounds(fs[..n], t, b);
      TrackOfRound(Rounds(fs[..n], t, b), t, b, fs[n]);
      assert fs == fs[..n] + [fs[n]];
    }
  }

  lemma {:induction false} TrackOfPushes(ops: seq<Op>, fs: seq<Fragment>, t: string)
    requires ValidOps(ops) && forall f | f in fs :: f.track == t && ValidFragment(f)
    ensures TrackOf(ops + Pushes(fs), t) == TrackOf(ops, t) + fs && ValidOps(ops + Pushes(fs))
  {
    hide TrackOf;
    if fs == [] {
      assert ops + Pushes(fs) == ops;
    } else {
      var n := |fs| - 1;
      TrackOfPushes(ops, fs[..n], t);
      TrackOfMore(ops + Pushes(fs[..n]), PushOp(fs[n], Media), t);
      assert ops + Pushes(fs) == (ops + Pushes(fs[..n])) + [PushOp(fs[n], Media)];
      assert fs == fs[..n] + [fs[n]];
    }
  }

  /** Rounds up to the fragment behind the lost one, then the rest of the track. */
  function GapRun(fs: seq<Fragment>, i: nat, j: nat, t: string): seq<Op>
    requires i < |fs| && j + 1 < |fs| && GapBoundary(fs, i, j) > 0
  {
    Rounds(fs[..j + 2], t, GapBoundary(fs, i, j)) + Pushes(fs[j + 2..])
  }

  lemma GapRunTrack(fs: seq<Fragment>, i: nat, j: nat, t: string)
    requires VideoTrack(fs, t) && i < |fs| && j + 1 < |fs| && GapBoundary(fs, i, j) > 0
    ensures ValidOps(GapRun(fs, i, j, t)) && TrackOf(GapRun(fs, i, j, t), t) == fs
  {
    hide TrackOf, Pushes, Rounds;
    var b, front, back := GapBoundary(fs, i, j), fs[..j + 2], fs[j + 2..];
    TrackOfRounds(front, t, b);
    TrackOfPushes(Rounds(front, t, b), back, t);
    assert front + back == fs;
  }

  lemma GapRunBreaks(fs: seq<Fragment>, i: nat, j: nat, t: string)
    requires VideoTrack(fs, t) && GapIn(fs, i, j)
    ensures GapBoundary(fs, i, j) > 0 && !ResumesAtKeyframes(After(Widest, GapRun(fs, i, j, t)), t)
  {
    hide After, Pushes, Rounds, Progress, Broken, ResumesAtKeyframes;
    var b := GapBoundary(fs, i, j);
    RoundsProgress(fs, i, j, j + 2, t, b);
    var rounds := Rounds(fs[..j + 2], t, b);
    RoundsBroken(After(Widest, rounds), fs, i, j, t, b);
    PushesKeepBroken(Widest, rounds, fs[j + 2..], t, 2 * j + 3, 2 * j + 5);
    BrokenBreaks(After(Widest, GapRun(fs, i, j, t)), t, 2 * j + 3, 2 * j + 5);
  }

  /** On a track with a gap, a run of the queue breaks the keyframe rule. */
  lemma GapBreaksRule(fs: seq<Fragment>, t: string) returns (q: Queue, ops: seq<Op>)
    requires VideoTrack(fs, t) && Gappy(fs)
    ensures Starts(q) && ValidOps(ops) && TrackOf(ops, t) == fs && !ResumesAtKeyframes(After(q, ops), t)
  {
    hide TrackOf, After, Pushes, Rounds, ResumesAtKeyframes, ValidOps;
    var i: nat, j: nat :| GapIn(fs, i, j);
    GapRunBreaks(fs, i, j, t);
    GapRunTrack(fs, i, j, t);
    q, ops := Widest, GapRun(fs, i, j, t);
    NothingBroken();
  }

  lemma NothingBroken()
    ensures Starts(Widest)
  {
  }

  lemma RoundsBroken(r: Run, fs: seq<Fragment>, i: nat, j: nat, t: string, b: nat)
    requires GapIn(fs, i, j) && VideoTrack(fs, t) && Progress(r, fs, i, j, j + 2, t, b)
    ensures Broken(r, t, 2 * j + 3, 2 * j + 5)
  {
    var m := 2 * j + 5;
    assert r.pushed[..m][..m - 1] == r.pushed[..m - 1] && r.pushed[..m - 1][..m - 2] == r.pushed[..m - 2];
    assert r.pushed[..m][m - 1] == r.pushed[m - 1] && r.pushed[..m - 1][m - 2] == r.pushed[m - 2];
  }

  /**
   * For a track that starts out recognisable as video: in every run that pushes these
   * fragments on it, from any empty queue, it resumes only at keyframes, if and only if
   * they have no gap.
   */
  lemma ResumesExactly(fs: seq<Fragment>, t: string)
    requires VideoTrack(fs, t)
    ensures (forall q, ops | Starts(q) && ValidOps(ops) && TrackOf(ops, t) == fs :: ResumesAtKeyframes(After(q, ops), t))
      <==> !Gappy(fs)
  {
    hide *;
    if Gappy(fs) {
      var q, ops := GapBreaksRule(fs, t);
    } else {
      forall q, ops | Starts(q) && ValidOps(ops) && TrackOf(ops, t) == fs
        ensures ResumesAtKeyframes(After(q, ops), t)
      {
        NoGapKeepsRule(q, ops, t);
      }
    }
  }

  lemma NoGapKeepsRule(q: Queue, ops: seq<Op>, t: string)
    requires Starts(q) && ValidOps(ops) && VideoTrack(TrackOf(ops, t), t) && !Gappy(TrackOf(ops, t))
    ensures ResumesAtKeyframes(After(q, ops), t)
  {
    hide HasGap, Gappy, Mirrors, TrackOf, After, FirstIsVideo, ResumesAtKeyframes, VideoTrack;
    var pushed := After(q, ops).pushed;
    RunMirrors(q, ops, t);
    StartsVideo(pushed, TrackOf(ops, t), t);
    if HasGap(pushed, t) {
      GapProjects(pushed, TrackOf(ops, t), t);
    }
    VideoResumesAtKeyframes(q, ops, t);
  }

  /** The shortest gap: a keyframe at 10, then fragments at 5 and at 11 that are not keyframes. */
  lemma OrderIsNeeded()
    ensures var fs := [Fragment(0, "v", 10, 1, 1, true, Some(2)), Fragment(0, "v", 5, 1, 1, false, Some(0)),
                       Fragment(0, "v", 11, 1, 1, false, Some(0))];
      exists q, ops | Starts(q) && ValidOps(ops) && TrackOf(ops, "v") == fs :: !ResumesAtKeyframes(After(q, ops), "v")
  {
    var fs := [Fragment(0, "v", 10, 1, 1, true, Some(2)), Fragment(0, "v", 5, 1, 1, false, Some(0)),
               Fragment(0, "v", 11, 1, 1, false, Some(0))];
    assert GapIn(fs, 0, 1);
    var q, ops := GapBreaksRule(fs, "v");
  }
}
