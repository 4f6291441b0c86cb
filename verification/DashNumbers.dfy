/**
 * Which DASH fragments become objects, and with what numbers, said on the fragments
 * received so far: the keyframes among them decide, and nothing else is remembered.
 */
module DashNumbers {
  import opened Bytes
  import opened DashGroups

  // ---- the keyframes received

  predicate Key(setup: Setup, f: Fragment) {
    f.track in setup.video && f.keyframe
  }

  /** The latest time of a video keyframe. */
  ghost predicate IsLatest(setup: Setup, fs: seq<Fragment>, time: nat) {
    (exists j | 0 <= j < |fs| :: Key(setup, fs[j]) && fs[j].start == time) &&
    forall j | 0 <= j < |fs| && Key(setup, fs[j]) :: fs[j].start <= time
  }

  /** A video keyframe later than every one before it. */
  ghost predicate Leads(setup: Setup, fs: seq<Fragment>, i: nat)
    requires i < |fs|
  {
    Key(setup, fs[i]) && forall j | 0 <= j < i && Key(setup, fs[j]) :: fs[j].start < fs[i].start
  }

  /** How many groups the fragments have opened. */
  ghost function Opened(setup: Setup, fs: seq<Fragment>): nat {
    if fs == [] then 0 else Opened(setup, fs[..|fs| - 1]) + if Leads(setup, fs, |fs| - 1) then 1 else 0
  }

  /** The track has a keyframe at the latest time of all. */
  ghost predicate Begins(setup: Setup, fs: seq<Fragment>, track: string) {
    exists j | 0 <= j < |fs| :: Joins(setup, fs, j, track)
  }

  ghost predicate Joins(setup: Setup, fs: seq<Fragment>, j: nat, track: string)
    requires j < |fs|
  {
    Key(setup, fs[j]) && fs[j].track == track && IsLatest(setup, fs, fs[j].start)
  }

  /** How many objects of this track are in this group. */
  function CountIn(log: seq<Numbered>, track: string, group: nat): nat {
    if log == [] then 0
    else CountIn(log[..|log| - 1], track, group) + if Same(log[|log| - 1], track, group) then 1 else 0
  }

  // ---- what the state knows of them

  ghost predicate Mirrors(setup: Setup, s: State, fs: seq<Fragment>, log: seq<Numbered>) {
    (s.closed <==> setup.initial + Opened(setup, fs) > MaxGroupId + 1) &&
    (!s.closed ==>
       (s.started <==> Opened(setup, fs) > 0) &&
       (s.started ==> IsLatest(setup, fs, s.startTime)) && (!s.started ==> forall j | 0 <= j < |fs| :: !Key(setup, fs[j])) &&
       s.group == setup.initial + (if s.started then Opened(setup, fs) - 1 else 0) &&
       (forall t: string :: t in s.begun <==> Begins(setup, fs, t)) &&
       (forall t: string :: NextId(s, t) == CountIn(log, t, s.group)) &&
       forall i | 0 <= i < |log| :: log[i].group <= s.group)
  }

  lemma {:induction false} NoneIn(log: seq<Numbered>, track: string, group: nat)
    requires forall i | 0 <= i < |log| :: log[i].group < group
    ensures CountIn(log, track, group) == 0
  {
    if log != [] {
      NoneIn(log[..|log| - 1], track, group);
    }
  }

  lemma CountNext(log: seq<Numbered>, a: Numbered, track: string, group: nat)
    ensures CountIn(log + [a], track, group) == CountIn(log, track, group) + if Same(a, track, group) then 1 else 0
  {
    assert (log + [a])[..|log|] == log;
  }

  /** What one more fragment does to the keyframes. */
  lemma LatestNext(setup: Setup, fs: seq<Fragment>, f: Fragment, time: nat)
    requires IsLatest(setup, fs, time)
    ensures var all := fs + [f];
      (Leads(setup, all, |fs|) <==> Key(setup, f) && f.start > time) &&
      IsLatest(setup, all, if Key(setup, f) && f.start > time then f.start else time)
  {
    var all := fs + [f];
    assert all[|fs|] == f;
    assert forall j | 0 <= j < |fs| :: all[j] == fs[j];
    var j :| 0 <= j < |fs| && Key(setup, fs[j]) && fs[j].start == time;
    assert Key(setup, all[j]) && all[j].start == time;
  }

  lemma FirstKey(setup: Setup, fs: seq<Fragment>, f: Fragment)
    requires forall j | 0 <= j < |fs| :: !Key(setup, fs[j])
    ensures var all := fs + [f];
      (Leads(setup, all, |fs|) <==> Key(setup, f)) && (Key(setup, f) ==> IsLatest(setup, all, f.start)) &&
      (!Key(setup, f) ==> forall j | 0 <= j < |all| :: !Key(setup, all[j]))
  {
    var all := fs + [f];
    assert all[|fs|] == f;
    assert forall j | 0 <= j < |fs| :: all[j] == fs[j];
  }

  lemma OpenedNext(setup: Setup, fs: seq<Fragment>, f: Fragment)
    ensures Opened(setup, fs + [f]) == Opened(setup, fs) + if Leads(setup, fs + [f], |fs|) then 1 else 0
  {
    assert (fs + [f])[..|fs|] == fs;
  }

  lemma OnlyLatest(setup: Setup, fs: seq<Fragment>, a: nat, b: nat)
    requires IsLatest(setup, fs, a) && IsLatest(setup, fs, b)
    ensures a == b
  {
  }

  /** The tracks that have begun the group, after one more fragment. */
  lemma BeginsNext(setup: Setup, fs: seq<Fragment>, f: Fragment, time: nat, next: nat, t: string)
    requires IsLatest(setup, fs, time) && IsLatest(setup, fs + [f], next) && time <= next
    ensures Begins(setup, fs + [f], t) <==>
      (next == time && Begins(setup, fs, t)) || (Key(setup, f) && f.track == t && f.start == next)
  {
    hide IsLatest, Key;
    var all := fs + [f];
    assert all[|fs|] == f;
    forall j | 0 <= j < |fs|
      ensures Joins(setup, all, j, t) <==> next == time && Joins(setup, fs, j, t)
    {
      JoinsNext(setup, fs, f, time, next, t, j);
    }
    if Key(setup, f) && f.track == t && f.start == next {
      assert Joins(setup, all, |fs|, t);
    }
    if Begins(setup, all, t) {
      var j :| 0 <= j < |all| && Joins(setup, all, j, t);
      if j == |fs| {
        OnlyLatest(setup, all, f.start, next);
      }
    }
    if next == time && Begins(setup, fs, t) {
      var j :| 0 <= j < |fs| && Joins(setup, fs, j, t);
      assert Joins(setup, all, j, t);
    }
  }

  lemma JoinsNext(setup: Setup, fs: seq<Fragment>, f: Fragment, time: nat, next: nat, t: string, j: nat)
    requires IsLatest(setup, fs, time) && IsLatest(setup, fs + [f], next) && time <= next && j < |fs|
    ensures Joins(setup, fs + [f], j, t) <==> next == time && Joins(setup, fs, j, t)
  {
    assert (fs + [f])[j] == fs[j];
    if Joins(setup, fs + [f], j, t) {
      OnlyLatest(setup, fs + [f], fs[j].start, next);
    }
    if next == time && Joins(setup, fs, j, t) {
      OnlyLatest(setup, fs, fs[j].start, time);
    }
  }

  lemma BeginsFirst(setup: Setup, fs: seq<Fragment>, f: Fragment, t: string)
    requires forall j | 0 <= j < |fs| :: !Key(setup, fs[j])
    requires Key(setup, f) && IsLatest(setup, fs + [f], f.start)
    ensures Begins(setup, fs + [f], t) <==> f.track == t
  {
    hide IsLatest, Key;
    var all := fs + [f];
    assert all[|fs|] == f;
    assert f.track == t ==> Joins(setup, all, |fs|, t);
    assert forall j | 0 <= j < |fs| :: all[j] == fs[j];
  }

  lemma BeginsNone(setup: Setup, fs: seq<Fragment>, t: string)
    requires forall j | 0 <= j < |fs| :: !Key(setup, fs[j])
    ensures !Begins(setup, fs, t)
  {
  }

  // ---- one fragment

  /** It is not too late for its group, and a video track has begun the group. */
  ghost predicate Fits(setup: Setup, all: seq<Fragment>, f: Fragment) {
    Opened(setup, all) > 0 && setup.initial + Opened(setup, all) - 1 <= MaxGroupId &&
    (f.track in setup.video ==> Begins(setup, all, f.track)) && (Key(setup, f) ==> IsLatest(setup, all, f.start))
  }

  lemma KeyMirrors(setup: Setup, s: State, fs: seq<Fragment>, log: seq<Numbered>, f: Fragment)
    requires setup.initial <= MaxGroupId && Mirrors(setup, s, fs, log) && !s.closed && Key(setup, f)
    requires s.started ==> f.start >= s.startTime && (f.start > s.startTime ==> s.group < MaxGroupId)
    ensures Mirrors(setup, Entered(s, f), fs + [f], log) && Entered(s, f).started && IsLatest(setup, fs + [f], f.start)
    ensures Begins(setup, fs + [f], f.track)
  {
    hide IsLatest, Key, Leads, Begins, Same;
    var t := Entered(s, f);
    OpenedNext(setup, fs, f);
    if s.started {
      LatestNext(setup, fs, f, s.startTime);
      forall track: string
        ensures track in t.begun <==> Begins(setup, fs + [f], track)
      {
        BeginsNext(setup, fs, f, s.startTime, f.start, track);
      }
      if f.start > s.startTime {
        forall track: string
          ensures CountIn(log, track, t.group) == 0
        {
          NoneIn(log, track, t.group);
        }
      }
    } else {
      FirstKey(setup, fs, f);
      forall track: string
        ensures track in t.begun <==> Begins(setup, fs + [f], track)
      {
        BeginsNone(setup, fs, track);
        BeginsFirst(setup, fs, f, track);
      }
    }
  }

  /** A fragment that opens nothing and joins nothing changes nothing. */
  lemma OtherMirrors(setup: Setup, s: State, fs: seq<Fragment>, log: seq<Numbered>, f: Fragment)
    requires Mirrors(setup, s, fs, log) && !s.closed && (Key(setup, f) ==> s.started && f.start < s.startTime)
    ensures Mirrors(setup, s, fs + [f], log)
    ensures Key(setup, f) ==> !IsLatest(setup, fs + [f], f.start)
  {
    hide IsLatest, Key, Leads, Begins, Same, CountIn;
    OpenedNext(setup, fs, f);
    if s.started {
      LatestNext(setup, fs, f, s.startTime);
      if IsLatest(setup, fs + [f], f.start) {
        OnlyLatest(setup, fs + [f], f.start, s.startTime);
      }
      forall track: string
        ensures Begins(setup, fs + [f], track) <==> Begins(setup, fs, track)
      {
        BeginsNext(setup, fs, f, s.startTime, s.startTime, track);
      }
    } else {
      FirstKey(setup, fs, f);
      forall track: string
        ensures Begins(setup, fs + [f], track) <==> Begins(setup, fs, track)
      {
        BeginsNone(setup, fs, track);
        BeginsNone(setup, fs + [f], track);
      }
    }
  }

  lemma NumberMirrors(setup: Setup, s: State, fs: seq<Fragment>, log: seq<Numbered>, f: Fragment)
    requires Mirrors(setup, s, fs, log) && !s.closed
    ensures var id := NextId(s, f.track);
      Mirrors(setup, s.(ids := s.ids[f.track := id + 1]), fs, log + [Numbered(f, s.group, id)])
  {
    hide IsLatest, Key, Opened, Begins, CountIn;
    var a := Numbered(f, s.group, NextId(s, f.track));
    forall t: string
      ensures CountIn(log + [a], t, s.group) == CountIn(log, t, s.group) + if t == f.track then 1 else 0
    {
      CountNext(log, a, t, s.group);
    }
  }

  lemma ClosedMirrors(setup: Setup, s: State, fs: seq<Fragment>, log: seq<Numbered>, f: Fragment)
    requires Mirrors(setup, s, fs, log)
    requires s.closed || (Key(setup, f) && s.started && f.start > s.startTime && s.group >= MaxGroupId)
    ensures Mirrors(setup, s.(closed := true), fs + [f], log) && !Fits(setup, fs + [f], f)
  {
    hide IsLatest, Key, Leads, Begins, CountIn;
    OpenedNext(setup, fs, f);
    if !s.closed {
      LatestNext(setup, fs, f, s.startTime);
    }
  }

  /** One fragment becomes an object exactly when it fits, in the group opened last and behind its track's objects there. */
  ghost predicate NumberedRight(setup: Setup, fs: seq<Fragment>, log: seq<Numbered>, f: Fragment, made: Option<Numbered>) {
    var all := fs + [f];
    (made.Some? <==> Fits(setup, all, f)) &&
    (made.Some? ==>
       var group := setup.initial + Opened(setup, all) - 1;
       made.value == Numbered(f, group, CountIn(log, f.track, group)))
  }

  lemma StepMirrors(setup: Setup, s: State, fs: seq<Fragment>, log: seq<Numbered>, f: Fragment)
    requires setup.video != {} && setup.initial <= MaxGroupId && Mirrors(setup, s, fs, log)
    ensures var (t, made) := Step(setup, s, f);
      NumberedRight(setup, fs, log, f, made) &&
      Mirrors(setup, t, fs + [f], if made.None? then log else log + [made.value])
  {
    hide Mirrors, Opened, Begins, IsLatest, CountIn, Entered;
    var key := Key(setup, f);
    if s.closed || (key && s.started && f.start > s.startTime && s.group >= MaxGroupId) {
      ClosedMirrors(setup, s, fs, log, f);
    } else if key && s.started && f.start < s.startTime {
      OtherMirrors(setup, s, fs, log, f);
    } else {
      var t := if key then Entered(s, f) else s;
      if key {
        KeyMirrors(setup, s, fs, log, f);
      } else {
        OtherMirrors(setup, s, fs, log, f);
      }
      StillOpen(s, f);
      Told(setup, t, fs + [f], log, f.track);
      if t.started && (f.track in setup.video ==> f.track in t.begun) {
        NumberMirrors(setup, t, fs + [f], log, f);
      }
    }
  }

  lemma StillOpen(s: State, f: Fragment)
    ensures Entered(s, f).closed == s.closed
  {
  }

  lemma Told(setup: Setup, s: State, fs: seq<Fragment>, log: seq<Numbered>, track: string)
    requires Mirrors(setup, s, fs, log) && !s.closed
    ensures s.started <==> Opened(setup, fs) > 0
    ensures setup.initial + Opened(setup, fs) <= MaxGroupId + 1
    ensures s.started ==> s.group == setup.initial + Opened(setup, fs) - 1
    ensures track in s.begun <==> Begins(setup, fs, track)
    ensures NextId(s, track) == CountIn(log, track, s.group)
  {
    hide IsLatest, Key, Opened, Begins, CountIn, NextId;
  }

  lemma NothingMirrored(setup: Setup)
    requires setup.initial <= MaxGroupId
    ensures Mirrors(setup, Fresh(setup), [], [])
  {
  }

  lemma {:induction false} RunMirrors(setup: Setup, fs: seq<Fragment>)
    requires setup.video != {} && setup.initial <= MaxGroupId
    ensures Mirrors(setup, Run(setup, fs).0, fs, Run(setup, fs).1)
  {
    hide Mirrors, Step, NumberedRight;
    if fs == [] {
      NothingMirrored(setup);
    } else {
      var before := fs[..|fs| - 1];
      RunMirrors(setup, before);
      var (s, log) := Run(setup, before);
      StepMirrors(setup, s, before, log, fs[|fs| - 1]);
      assert before + [fs[|fs| - 1]] == fs;
    }
  }

  /**
   * Every run with video: a fragment becomes an object exactly when some keyframe has
   * opened a group, there was an id for it, a fragment of video is of a track with a
   * keyframe at the latest keyframe time, and a keyframe is at that time itself. Its group
   * counts the keyframes later than all before them, its id the objects of its track there.
   */
  lemma NumberedExactly(setup: Setup, fs: seq<Fragment>, f: Fragment)
    requires setup.video != {} && setup.initial <= MaxGroupId
    ensures NumberedRight(setup, fs, Run(setup, fs).1, f, Step(setup, Run(setup, fs).0, f).1)
  {
    hide Mirrors, Step, NumberedRight;
    RunMirrors(setup, fs);
    StepMirrors(setup, Run(setup, fs).0, fs, Run(setup, fs).1, f);
  }

  // ---- without video

  function Own(f: Fragment): (string, string) {
    (f.path, f.track)
  }

  /** How many of these fragments are of this path and track. */
  function Received(fs: seq<Fragment>, own: (string, string)): nat {
    if fs == [] then 0 else Received(fs[..|fs| - 1], own) + if Own(fs[|fs| - 1]) == own then 1 else 0
  }

  /** No path and track has run out of groups. */
  ghost predicate GroupsLeft(setup: Setup, fs: seq<Fragment>) {
    forall i | 0 <= i < |fs| :: setup.initial + Received(fs[..i], Own(fs[i])) <= MaxGroupId
  }

  ghost predicate MirrorsOwn(setup: Setup, s: State, fs: seq<Fragment>) {
    (s.closed <==> !GroupsLeft(setup, fs)) &&
    (!s.closed ==> forall own: (string, string) :: NextGroup(setup, s, own) == setup.initial + Received(fs, own))
  }

  lemma ReceivedNext(fs: seq<Fragment>, f: Fragment, own: (string, string))
    ensures Received(fs + [f], own) == Received(fs, own) + if Own(f) == own then 1 else 0
  {
    assert (fs + [f])[..|fs|] == fs;
  }

  lemma GroupsLeftNext(setup: Setup, fs: seq<Fragment>, f: Fragment)
    ensures GroupsLeft(setup, fs + [f]) <==> GroupsLeft(setup, fs) && setup.initial + Received(fs, Own(f)) <= MaxGroupId
  {
    hide Received;
    var all := fs + [f];
    assert all[..|fs|] == fs && all[|fs|] == f;
    forall i | 0 <= i < |fs|
      ensures all[..i] == fs[..i] && all[i] == fs[i]
    {
    }
  }

  lemma OwnMirrors(setup: Setup, s: State, fs: seq<Fragment>, f: Fragment)
    requires setup.video == {} && MirrorsOwn(setup, s, fs)
    ensures var (t, made) := Step(setup, s, f);
      MirrorsOwn(setup, t, fs + [f]) && (made.Some? <==> GroupsLeft(setup, fs + [f])) &&
      (made.Some? ==> made.value == Numbered(f, setup.initial + Received(fs, Own(f)), 0))
  {
    hide GroupsLeft, Received;
    GroupsLeftNext(setup, fs, f);
    if !s.closed {
      assert NextGroup(setup, s, Own(f)) == setup.initial + Received(fs, Own(f));
      var t := Step(setup, s, f).0;
      forall own: (string, string)
        ensures !t.closed ==> NextGroup(setup, t, own) == setup.initial + Received(fs + [f], own)
      {
        ReceivedNext(fs, f, own);
        assert NextGroup(setup, s, own) == setup.initial + Received(fs, own);
      }
    }
  }

  lemma {:induction false} RunMirrorsOwn(setup: Setup, fs: seq<Fragment>)
    requires setup.video == {}
    ensures MirrorsOwn(setup, Run(setup, fs).0, fs)
  {
    hide MirrorsOwn, Step;
    if fs == [] {
      NothingReceived(setup);
    } else {
      var before := fs[..|fs| - 1];
      RunMirrorsOwn(setup, before);
      OwnMirrors(setup, Run(setup, before).0, before, fs[|fs| - 1]);
      assert before + [fs[|fs| - 1]] == fs;
    }
  }

  lemma NothingReceived(setup: Setup)
    requires setup.video == {}
    ensures MirrorsOwn(setup, Fresh(setup), [])
  {
  }

  /**
   * Every run without video: each fragment becomes the one object of the next group of its
   * path and track, until one of them has no group id left.
   */
  lemma OwnNumberedExactly(setup: Setup, fs: seq<Fragment>, f: Fragment)
    requires setup.video == {}
    ensures var made := Step(setup, Run(setup, fs).0, f).1;
      (made.Some? <==> GroupsLeft(setup, fs + [f])) &&
      (made.Some? ==> made.value == Numbered(f, setup.initial + Received(fs, Own(f)), 0))
  {
    hide MirrorsOwn, Step, GroupsLeft;
    RunMirrorsOwn(setup, fs);
    OwnMirrors(setup, Run(setup, fs).0, fs, f);
  }
}
