/**
 * Group and object numbers of DASH fragments. With video among the published tracks
 * all tracks share one group, opened by the video keyframe that is latest so far;
 * without video every fragment is a group of its own track.
 */
module DashGroups {
  import opened Bytes
  import CatalogPublisher

  const MaxGroupId := CatalogPublisher.MaxGroupId

  /** A parsed fragment of a published track. */
  datatype Fragment = Fragment(path: string, track: string, keyframe: bool, start: nat)

  datatype Numbered = Numbered(fragment: Fragment, group: nat, id: nat)

  /** The published video tracks, which do not change, and the first group to use. */
  datatype Setup = Setup(video: set<string>, initial: nat)

  datatype State = State(started: bool, group: nat, startTime: nat, ids: map<string, nat>, begun: set<string>,
                         next: map<(string, string), nat>, closed: bool)

  function Fresh(setup: Setup): State {
    State(false, setup.initial, 0, map[], {}, map[], false)
  }

  /** A keyframe that opens the first group, a later group, or joins the one under way. */
  function Entered(s: State, f: Fragment): State {
    if !s.started then s.(started := true, startTime := f.start, begun := s.begun + {f.track})
    else if f.start > s.startTime then
      s.(group := s.group + 1, startTime := f.start, ids := map[], begun := {f.track})
    else s.(begun := s.begun + {f.track})
  }

  function NextId(s: State, track: string): nat {
    if track in s.ids then s.ids[track] else 0
  }

  /** One fragment: the new state, and the number it gets unless it is dropped. */
  function Step(setup: Setup, s: State, f: Fragment): (State, Option<Numbered>) {
    if s.closed then (s, None)
    else if setup.video != {} then
      var key := f.track in setup.video && f.keyframe;
      if key && s.started && f.start > s.startTime && s.group >= MaxGroupId then (s.(closed := true), None)
      else if key && s.started && f.start < s.startTime then (s, None)
      else
        var t := if key then Entered(s, f) else s;
        if !t.started || (f.track in setup.video && f.track !in t.begun) then (t, None)
        else
          (t.(ids := t.ids[f.track := NextId(t, f.track) + 1]), Some(Numbered(f, t.group, NextId(t, f.track))))
    else
      var own := (f.path, f.track);
      var group := if own in s.next then s.next[own] else setup.initial;
      if group > MaxGroupId then (s.(closed := true), None)
      else (s.(next := s.next[own := group + 1]), Some(Numbered(f, group, 0)))
  }

  /** The state after some fragments and the objects they became. */
  function Run(setup: Setup, fragments: seq<Fragment>): (State, seq<Numbered>) {
    if fragments == [] then (Fresh(setup), [])
    else
      var (s, log) := Run(setup, fragments[..|fragments| - 1]);
      var (t, made) := Step(setup, s, fragments[|fragments| - 1]);
      (t, if made.None? then log else log + [made.value])
  }

  // ---- the session

  class DashSession {
    const setup: Setup
    var started: bool
    var group: nat
    var startTime: nat
    var ids: map<string, nat>
    var begun: set<string>
    var next: map<(string, string), nat>
    var closed: bool

    function Now(): State
      reads this
    {
      State(started, group, startTime, ids, begun, next, closed)
    }

    constructor (setup: Setup)
      requires setup.initial <= MaxGroupId
      ensures this.setup == setup && Now() == Fresh(setup)
    {
      this.setup := setup;
      started, group, startTime, closed := false, setup.initial, 0, false;
      ids, begun, next := map[], {}, map[];
    }

    method Number(f: Fragment) returns (made: Option<Numbered>)
      requires setup.initial <= MaxGroupId
      modifies this
      ensures (Now(), made) == Step(setup, old(Now()), f)
    {
      if closed {
        return None;
      }
      var isVideo := f.track in setup.video;
      if setup.video != {} {
        if isVideo && f.keyframe {
          if !started {
            started := true;
            startTime := f.start;
          } else if f.start > startTime {
            if group >= MaxGroupId {
              closed := true;
              return None;
            }
            group := group + 1;
            startTime := f.start;
            ids := map[];
            begun := {};
          } else if f.start < startTime {
            return None;
          }
          assert {} + {f.track} == {f.track};
          begun := begun + {f.track};
        }
        if !started || (isVideo && f.track !in begun) {
          return None;
        }
        var id := if f.track in ids then ids[f.track] else 0;
        ids := ids[f.track := id + 1];
        return Some(Numbered(f, group, id));
      }
      var own := (f.path, f.track);
      if own !in next {
        next := next[own := setup.initial];
      }
      if next[own] > MaxGroupId {
        closed := true;
        return None;
      }
      var number := next[own];
      next := next[own := number + 1];
      assert next == old(next)[own := number + 1];
      return Some(Numbered(f, number, 0));
    }
  }

  // ---- every run, with video

  predicate Same(a: Numbered, track: string, group: nat) {
    a.fragment.track == track && a.group == group
  }

  /** Some object of this track and group has this number. */
  ghost predicate Has(log: seq<Numbered>, track: string, group: nat, id: nat) {
    exists k | 0 <= k < |log| :: Same(log[k], track, group) && log[k].id == id
  }

  /** Groups never go back, and the objects of a track in a group are numbered upwards. */
  ghost predicate Rising(log: seq<Numbered>) {
    (forall i, j | 0 <= i < j < |log| :: log[i].group <= log[j].group) &&
    (forall i, j | 0 <= i < j < |log| && Same(log[j], log[i].fragment.track, log[i].group) :: log[i].id < log[j].id)
  }

  /** The objects of a track in a group are numbered from 0 without a gap. */
  ghost predicate NoGap(log: seq<Numbered>) {
    forall i | 0 <= i < |log| && log[i].id > 0 :: Has(log[..i], log[i].fragment.track, log[i].group, log[i].id - 1)
  }

  /** The first object of a video track in a group is a keyframe. */
  predicate Opens(setup: Setup, a: Numbered) {
    a.fragment.track in setup.video && a.id == 0
  }

  /**
   * Every video track begins each group with a keyframe, at one time for all of
   * them, and later groups begin later.
   */
  ghost predicate Aligned(setup: Setup, log: seq<Numbered>) {
    && (forall i | 0 <= i < |log| && Opens(setup, log[i]) :: log[i].fragment.keyframe)
    && (forall i, j | 0 <= i < |log| && 0 <= j < |log| && Opens(setup, log[i]) && Opens(setup, log[j]) ::
          (log[i].group == log[j].group ==> log[i].fragment.start == log[j].fragment.start) &&
          (log[i].group < log[j].group ==> log[i].fragment.start < log[j].fragment.start))
  }

  /** What the state knows of the objects made so far. */
  ghost predicate Known(setup: Setup, s: State, log: seq<Numbered>) {
    && (s.started || log == []) && setup.initial <= s.group <= MaxGroupId
    && (forall i | 0 <= i < |log| :: Fits(setup, s, log[i]))
    && (forall t | t in s.ids :: s.ids[t] > 0 && Has(log, t, s.group, s.ids[t] - 1))
  }

  /** An object of an earlier group, or one of this group whose id is taken. */
  ghost predicate Fits(setup: Setup, s: State, n: Numbered) {
    setup.initial <= n.group <= s.group &&
    (n.group == s.group ==> n.fragment.track in s.ids && n.id < s.ids[n.fragment.track]) &&
    (Opens(setup, n) ==>
       (n.group == s.group ==> n.fragment.start == s.startTime) && (n.group < s.group ==> n.fragment.start < s.startTime))
  }

  /** The video tracks that have begun the group are those with objects in it. */
  predicate Begun(setup: Setup, s: State) {
    (forall t | t in s.begun :: t in s.ids) && (forall t | t in s.ids && t in setup.video :: t in s.begun)
  }

  lemma HasStays(log: seq<Numbered>, a: Numbered, track: string, group: nat, id: nat)
    requires Has(log, track, group, id)
    ensures Has(log + [a], track, group, id)
  {
    var k :| 0 <= k < |log| && Same(log[k], track, group) && log[k].id == id;
    assert (log + [a])[k] == log[k];
  }

  /** Entering a group keeps what is known. */
  lemma EnteredKnown(setup: Setup, s: State, log: seq<Numbered>, f: Fragment)
    requires Known(setup, s, log) && setup.initial <= MaxGroupId
    requires s.started ==> s.startTime <= f.start && (s.startTime < f.start ==> s.group < MaxGroupId)
    ensures Known(setup, Entered(s, f), log) && Entered(s, f).started && Entered(s, f).startTime == f.start
  {
    hide Has;
  }

  lemma NumberedKnown(setup: Setup, s: State, log: seq<Numbered>, f: Fragment)
    requires s.started && Known(setup, s, log)
    requires f.track in setup.video && f.track !in s.ids ==> f.start == s.startTime
    ensures var id := NextId(s, f.track);
      Known(setup, s.(ids := s.ids[f.track := id + 1]), log + [Numbered(f, s.group, id)])
  {
    var a := Numbered(f, s.group, NextId(s, f.track));
    var t, all := s.(ids := s.ids[f.track := a.id + 1]), log + [a];
    forall track | track in t.ids
      ensures t.ids[track] > 0 && Has(all, track, t.group, t.ids[track] - 1)
    {
      if track == f.track {
        assert Same(all[|log|], track, t.group) && all[|log|].id == a.id;
      } else {
        HasStays(log, a, track, s.group, s.ids[track] - 1);
      }
    }
    forall i | 0 <= i < |all|
      ensures Fits(setup, t, all[i])
    {
      assert i < |log| ==> Fits(setup, s, log[i]);
    }
    hide Has, Fits;
  }

  lemma NumberedRising(setup: Setup, s: State, log: seq<Numbered>, f: Fragment)
    requires Known(setup, s, log) && Rising(log)
    ensures Rising(log + [Numbered(f, s.group, NextId(s, f.track))])
  {
    hide Has, Opens;
    var all := log + [Numbered(f, s.group, NextId(s, f.track))];
    assert forall i | 0 <= i < |log| :: all[i] == log[i];
  }

  lemma NumberedNoGap(setup: Setup, s: State, log: seq<Numbered>, f: Fragment)
    requires Known(setup, s, log) && NoGap(log)
    ensures NoGap(log + [Numbered(f, s.group, NextId(s, f.track))])
  {
    hide Has, Opens;
    var all := log + [Numbered(f, s.group, NextId(s, f.track))];
    forall i | 0 <= i < |all| && all[i].id > 0
      ensures Has(all[..i], all[i].fragment.track, all[i].group, all[i].id - 1)
    {
      if i < |log| {
        assert all[..i] == log[..i];
      } else {
        assert all[..i] == log;
      }
    }
  }

  lemma NumberedAligned(setup: Setup, s: State, log: seq<Numbered>, f: Fragment)
    requires Known(setup, s, log) && Aligned(setup, log)
    requires f.track in setup.video && f.track !in s.ids ==> f.keyframe && f.start == s.startTime
    ensures Aligned(setup, log + [Numbered(f, s.group, NextId(s, f.track))])
  {
    assert forall t | t in s.ids :: s.ids[t] > 0;
    hide Has;
  }

  /** What every run with video keeps. */
  ghost predicate Kept(setup: Setup, s: State, log: seq<Numbered>) {
    Known(setup, s, log) && Rising(log) && NoGap(log) && Aligned(setup, log)
  }

  lemma NumberedKept(setup: Setup, s: State, log: seq<Numbered>, f: Fragment)
    requires s.started && Kept(setup, s, log)
    requires f.track in setup.video && f.track !in s.ids ==> f.keyframe && f.start == s.startTime
    ensures var id := NextId(s, f.track);
      Kept(setup, s.(ids := s.ids[f.track := id + 1]), log + [Numbered(f, s.group, id)])
  {
    hide Known, Rising, NoGap, Aligned;
    NumberedKnown(setup, s, log, f);
    NumberedRising(setup, s, log, f);
    NumberedNoGap(setup, s, log, f);
    NumberedAligned(setup, s, log, f);
  }

  lemma KnownGroup(setup: Setup, s: State, log: seq<Numbered>)
    requires Known(setup, s, log)
    ensures s.group <= MaxGroupId
  {
  }

  lemma StepKept(setup: Setup, s: State, log: seq<Numbered>, f: Fragment)
    requires setup.video != {} && setup.initial <= MaxGroupId && Kept(setup, s, log) && Begun(setup, s)
    ensures var (t, made) := Step(setup, s, f);
      Kept(setup, t, if made.None? then log else log + [made.value]) && Begun(setup, t)
  {
    hide Known, Rising, NoGap, Aligned;
    KnownGroup(setup, s, log);
    StaysKnown(setup, s, log, true);
    var key := f.track in setup.video && f.keyframe;
    if !s.closed && !(key && s.started && f.start > s.startTime && s.group >= MaxGroupId) &&
       !(key && s.started && f.start < s.startTime) {
      var t := if key then Entered(s, f) else s;
      if key {
        EnteredKnown(setup, s, log, f);
      }
      if t.started && (f.track in setup.video ==> f.track in t.begun) {
        NumberedKept(setup, t, log, f);
      }
    }
  }

  lemma StaysKnown(setup: Setup, s: State, log: seq<Numbered>, closed: bool)
    requires Known(setup, s, log)
    ensures Known(setup, s.(closed := closed), log)
  {
    hide Has;
  }

  /**
   * Every run with video: groups never go back, the objects of each track in a group
   * are numbered from 0 without a gap, and every video track begins each group with a
   * keyframe at the time the group begins.
   */
  lemma {:induction false} SharedGroups(setup: Setup, fragments: seq<Fragment>)
    requires setup.video != {} && setup.initial <= MaxGroupId
    ensures var (s, log) := Run(setup, fragments);
      Kept(setup, s, log) && Begun(setup, s)
  {
    hide Begun, Kept, Step;
    if fragments == [] {
      NothingKnown(setup);
    } else {
      var before := fragments[..|fragments| - 1];
      SharedGroups(setup, before);
      var (s, log) := Run(setup, before);
      StepKept(setup, s, log, fragments[|fragments| - 1]);
    }
  }

  lemma NothingKnown(setup: Setup)
    requires setup.initial <= MaxGroupId
    ensures Kept(setup, Fresh(setup), []) && Begun(setup, Fresh(setup))
  {
  }

  // ---- every run without video

  /** How many of these objects are of this path and track. */
  function CountOf(log: seq<Numbered>, own: (string, string)): nat {
    if log == [] then 0
    else
      var f := log[|log| - 1].fragment;
      CountOf(log[..|log| - 1], own) + if (f.path, f.track) == own then 1 else 0
  }

  function NextGroup(setup: Setup, s: State, own: (string, string)): nat {
    if own in s.next then s.next[own] else setup.initial
  }

  /** Object `i` is alone in its group, and its group follows that of the object before it on its track. */
  predicate AloneAt(setup: Setup, log: seq<Numbered>, i: nat)
    requires i < |log|
  {
    log[i].id == 0 && log[i].group == setup.initial + CountOf(log[..i], (log[i].fragment.path, log[i].fragment.track))
  }

  lemma OwnStep(setup: Setup, s: State, log: seq<Numbered>, f: Fragment, own: (string, string))
    requires setup.video == {} && NextGroup(setup, s, own) == setup.initial + CountOf(log, own)
    requires NextGroup(setup, s, (f.path, f.track)) == setup.initial + CountOf(log, (f.path, f.track))
    ensures var (t, made) := Step(setup, s, f);
      if made.None? then NextGroup(setup, t, own) == NextGroup(setup, s, own)
      else
        NextGroup(setup, t, own) == setup.initial + CountOf(log + [made.value], own) &&
        made.value.id == 0 && made.value.fragment == f &&
        made.value.group == setup.initial + CountOf(log, (f.path, f.track))
  {
    var made := Step(setup, s, f).1;
    if made.Some? {
      assert (log + [made.value])[..|log|] == log;
    }
  }

  lemma AloneStays(setup: Setup, log: seq<Numbered>, a: Numbered)
    requires forall i | 0 <= i < |log| :: AloneAt(setup, log, i)
    requires a.id == 0 && a.group == setup.initial + CountOf(log, (a.fragment.path, a.fragment.track))
    ensures forall i | 0 <= i < |log + [a]| :: AloneAt(setup, log + [a], i)
  {
    hide CountOf;
    var all := log + [a];
    forall i | 0 <= i < |all|
      ensures AloneAt(setup, all, i)
    {
      if i < |log| {
        assert all[..i] == log[..i] && AloneAt(setup, log, i);
      } else {
        assert all[..i] == log;
      }
    }
  }

  /** Every run without video: each fragment is a group of its own, and a track's groups are consecutive. */
  lemma {:induction false} OwnGroups(setup: Setup, fragments: seq<Fragment>, own: (string, string))
    requires setup.video == {}
    ensures var (s, log) := Run(setup, fragments);
      NextGroup(setup, s, own) == setup.initial + CountOf(log, own) &&
      forall i | 0 <= i < |log| :: AloneAt(setup, log, i)
  {
    if fragments != [] {
      var before, f := fragments[..|fragments| - 1], fragments[|fragments| - 1];
      OwnGroups(setup, before, own);
      OwnGroups(setup, before, (f.path, f.track));
      var (s, log) := Run(setup, before);
      var made := Step(setup, s, f).1;
      hide Step, CountOf, NextGroup, AloneAt;
      OwnStep(setup, s, log, f, own);
      if made.Some? {
        AloneStays(setup, log, made.value);
      }
    }
  }
}
