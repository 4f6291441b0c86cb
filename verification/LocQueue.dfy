/**
 * What the ingest queue gives up: the fewest groups from the front that bring it back
 * within its bounds, and nothing without need.
 */
module LocQueue {
  import opened Bytes
  import opened LocEncoder
  import opened LocFrames
  import opened LocIngest
  import opened LocRuns

  // ---- the queue without some groups

  type Group = (string, nat)

  function GroupOf(f: Fragment): Group {
    (Track(f), f.group)
  }

  /** The groups of the first objects. */
  function Groups(q: seq<Fragment>): set<Group> {
    set f | f in q :: GroupOf(f)
  }

  function Without(q: seq<Fragment>, gone: set<Group>): seq<Fragment> {
    if q == [] then []
    else
      Without(q[..|q| - 1], gone) + if GroupOf(q[|q| - 1]) in gone then [] else [q[|q| - 1]]
  }

  function Sizes(q: seq<Fragment>): seq<int> {
    seq(|q|, i requires 0 <= i < |q| => |q[i].sample.bytes|)
  }

  /** Within the depth, and within 16 MiB of payload. */
  ghost predicate Within(q: seq<Fragment>, depth: nat) {
    |q| <= depth && Sum(Sizes(q)) <= 16 * 1024 * 1024
  }

  lemma {:induction false} BytesExactly(q: seq<Fragment>)
    ensures QueuedBytes(q) == Sum(Sizes(q))
  {
    if q != [] {
      BytesExactly(q[..|q| - 1]);
      assert Sizes(q)[..|q| - 1] == Sizes(q[..|q| - 1]);
    }
  }

  lemma {:induction false} EraseIsWithout(all: seq<Fragment>, gone: set<Group>, t: string, g: nat)
    ensures Erase(Without(all, gone), t, g) == Without(all, gone + {(t, g)})
  {
    hide Erase;
    if all == [] {
      EraseNothing(t, g);
    } else {
      var n := |all| - 1;
      EraseIsWithout(all[..n], gone, t, g);
      var before := Without(all[..n], gone);
      if GroupOf(all[n]) !in gone {
        assert (before + [all[n]])[..|before|] == before;
        EraseLast(before + [all[n]], t, g);
      } else {
        assert before + [] == before;
      }
    }
  }

  lemma EraseNothing(t: string, g: nat)
    ensures Erase([], t, g) == []
  {
  }

  /** What is left starts with the first object whose group is not gone. */
  lemma {:induction false} FrontOf(all: seq<Fragment>, gone: set<Group>) returns (i: nat)
    ensures if Without(all, gone) == [] then i == |all|
            else i < |all| && all[i] == Without(all, gone)[0] && GroupOf(all[i]) !in gone
    ensures forall j | 0 <= j < i :: GroupOf(all[j]) in gone
  {
    hide GroupOf;
    i := 0;
    if all != [] {
      var n := |all| - 1;
      i := FrontOf(all[..n], gone);
      if i == n && GroupOf(all[n]) in gone {
        i := n + 1;
      }
    }
  }

  // ---- shedding

  /**
   * Exactly the groups of the first `i` objects are gone; that is enough, and with the
   * groups of fewer objects gone it is not, unless those are the same groups.
   */
  ghost predicate Least(all: seq<Fragment>, i: nat, depth: nat, left: seq<Fragment>) {
    i <= |all| && left == Without(all, Groups(all[..i])) && Within(left, depth) &&
    forall j: nat | j < i && Groups(all[..j]) != Groups(all[..i]) :: !Within(Without(all, Groups(all[..j])), depth)
  }

  /** The last group given up on each track is the one that is remembered. */
  ghost predicate Remembered(all: seq<Fragment>, i: nat, before: map<string, nat>, after: map<string, nat>) {
    i <= |all| && after.Keys == before.Keys + (set f | f in all[..i] :: Track(f)) &&
    forall t | t in after ::
      (t in before && after[t] == before[t] && forall f | f in all[..i] :: Track(f) != t) ||
      exists f | f in all[..i] :: GroupOf(f) == (t, after[t])
  }

  lemma GroupsNext(all: seq<Fragment>, i: nat)
    requires i < |all|
    ensures Groups(all[..i + 1]) == Groups(all[..i]) + {GroupOf(all[i])}
  {
    assert all[..i + 1] == all[..i] + [all[i]];
  }

  lemma {:induction false} SameGroups(all: seq<Fragment>, i: nat, k: nat)
    requires i <= k <= |all| && forall j | i <= j < k :: GroupOf(all[j]) in Groups(all[..i])
    ensures Groups(all[..k]) == Groups(all[..i])
  {
    assert all[..k] == all[..i] + all[i..k];
    forall f | f in all[i..k]
      ensures GroupOf(f) in Groups(all[..i])
    {
      var j :| 0 <= j < k - i && all[i..k][j] == f;
      assert f == all[i + j];
    }
  }

  lemma Growing(all: seq<Fragment>, i: nat, k: nat)
    requires i <= k <= |all|
    ensures Groups(all[..i]) <= Groups(all[..k])
  {
    assert all[..k] == all[..i] + all[i..k];
  }

  /** The shed loop from a state where the groups of the first `i` objects are gone. */
  lemma {:induction false} ShedFrom(all: seq<Fragment>, i: nat, q: seq<Fragment>, first: map<string, nat>,
                                    dropped: map<string, nat>, depth: nat) returns (end: nat)
    requires i <= |all| && q == Without(all, Groups(all[..i])) && Remembered(all, i, first, dropped)
    requires forall j: nat | j < i && Groups(all[..j]) != Groups(all[..i]) :: !Within(Without(all, Groups(all[..j])), depth)
    ensures var (left, after) := Shed(q, dropped, depth);
      Least(all, end, depth, left) && Remembered(all, end, first, after)
    decreases |q|
  {
    hide Groups, Without, Erase, Remembered, QueuedBytes, Sum;
    BytesExactly(q);
    if q == [] || !Over(q, depth) {
      end := i;
      NothingLeft(q, depth);
    } else {
      var t, g := Track(q[0]), q[0].group;
      var k := FrontOf(all, Groups(all[..i]));
      BeforeFront(all, i, k);
      ShedTurn(q, dropped, depth);
      EraseIsWithout(all, Groups(all[..i]), t, g);
      SameGroups(all, i, k);
      GroupsNext(all, k);
      RememberMore(all, i, k, first, dropped);
      forall j: nat | j < k + 1 && Groups(all[..j]) != Groups(all[..k + 1])
        ensures !Within(Without(all, Groups(all[..j])), depth)
      {
        if j >= i {
          Growing(all, i, j);
          Growing(all, j, k);
          assert Groups(all[..j]) == Groups(all[..i]);
        } else {
          assert Groups(all[..j]) == Groups(all[..i]) ==> !Within(Without(all, Groups(all[..j])), depth);
        }
      }
      end := ShedFrom(all, k + 1, Erase(q, t, g), first, dropped[t := g], depth);
    }
  }

  lemma NothingLeft(q: seq<Fragment>, depth: nat)
    ensures q == [] || !Over(q, depth) ==> Within(q, depth)
  {
    hide QueuedBytes, Sizes;
    BytesExactly(q);
    if q == [] {
      assert Sizes(q) == [] by { NoSizes(q); }
    }
  }

  lemma NoSizes(q: seq<Fragment>)
    requires q == []
    ensures Sizes(q) == []
  {
  }

  lemma BeforeFront(all: seq<Fragment>, i: nat, k: nat)
    requires i <= |all| && k < |all| && GroupOf(all[k]) !in Groups(all[..i])
    ensures i <= k
  {
    hide GroupOf;
    assert forall j | 0 <= j < i :: all[..i][j] == all[j];
  }

  lemma RememberMore(all: seq<Fragment>, i: nat, k: nat, first: map<string, nat>, dropped: map<string, nat>)
    requires i <= k < |all| && Remembered(all, i, first, dropped)
    requires Groups(all[..k]) == Groups(all[..i])
    ensures Remembered(all, k + 1, first, dropped[Track(all[k]) := all[k].group])
  {
    hide Track;
    var t := Track(all[k]);
    var after := dropped[t := all[k].group];
    assert all[..k + 1] == all[..i] + all[i..k] + [all[k]];
    forall f | f in all[i..k]
      ensures exists h | h in all[..i] :: GroupOf(h) == GroupOf(f)
    {
      assert f in all[..k];
      assert GroupOf(f) in Groups(all[..i]);
    }
    assert all[k] in all[..k + 1] && GroupOf(all[k]) == (t, after[t]);
  }

  /** What a queue over its bounds gives up, and that one within them gives up nothing. */
  lemma ShedExactly(q: seq<Fragment>, dropped: map<string, nat>, depth: nat) returns (i: nat)
    ensures var (left, after) := Shed(q, dropped, depth);
      Least(q, i, depth, left) && Remembered(q, i, dropped, after)
    ensures Within(q, depth) ==> Shed(q, dropped, depth) == (q, dropped)
  {
    hide Shed, Within;
    NoneGone(q);
    i := ShedFrom(q, 0, q, dropped, dropped, depth);
    BytesExactly(q);
    if !Over(q, depth) {
      ShedStops(q, dropped, depth);
    }
    OverExactly(q, depth);
  }

  lemma OverExactly(q: seq<Fragment>, depth: nat)
    ensures Within(q, depth) <==> !Over(q, depth)
  {
    BytesExactly(q);
  }

  lemma NoneGone(q: seq<Fragment>)
    ensures Without(q, Groups(q[..0])) == q
  {
    assert Groups(q[..0]) == {};
    WithoutNone(q);
  }

  lemma {:induction false} WithoutNone(q: seq<Fragment>)
    ensures Without(q, {}) == q
  {
    hide GroupOf;
    if q != [] {
      WithoutNone(q[..|q| - 1]);
    }
  }

  // ---- entering and leaving

  /**
   * An object of a group at or below the last one given up on its track is not queued;
   * any other is, and may cost the front groups.
   */
  lemma EnqueueExactly(s: Session, f: Fragment) returns (i: nat)
    ensures var next := Enqueue(s, f);
      if Track(f) in s.dropped && f.group <= s.dropped[Track(f)] then next == s
      else
        var all := s.queue + [f];
        Least(all, i, s.depth, next.queue) && Remembered(all, i, s.dropped, next.dropped) &&
        (Within(all, s.depth) ==> next.queue == all && next.dropped == s.dropped)
  {
    hide Shed, Least, Within, Remembered;
    i := ShedExactly(s.queue + [f], s.dropped, s.depth);
  }

  /** Objects leave from the front, one a call, until none is left. */
  lemma {:induction false} TakesInOrder(h: History, n: nat)
    requires !h.session.failed && n <= |h.session.queue|
    ensures var after := Taking(h, n);
      after.delivered == h.delivered + h.session.queue[..n] && after.session.queue == h.session.queue[n..] &&
      !after.session.failed
    decreases n
  {
    if n > 0 {
      TakesInOrder(h, n - 1);
      assert h.session.queue[..n] == h.session.queue[..n - 1] + [h.session.queue[n - 1]];
    }
  }

  function Taking(h: History, n: nat): History {
    if n == 0 then h else Next(Taking(h, n - 1), Event.Take)
  }

  /** The group a sample's object would be published in. */
  function PublishedGroup(s: Session, e: Encoder, sample: Sample): nat {
    s.initial + e.group + if e.started && (!e.video || sample.independent) then 1 else 0
  }

  /** The session breaks exactly on a sample of one of its tracks that is neither encoded nor skipped, or has no group id left. */
  lemma BreaksExactly(s: Session, sample: Sample)
    requires sample.Bounded() && !s.failed
    ensures IngestOne(s, sample).failed <==>
      sample.track in s.encoders &&
      var e := s.encoders[sample.track];
      !(Usable(e, sample) && Undecodable(e, sample)) &&
      !(Usable(e, sample) && Representable(e, sample) && Numberable(e, sample) && PublishedGroup(s, e, sample) <= MaxGroupId)
    ensures IngestOne(s, sample).failed ==> IngestOne(s, sample).queue == []
  {
    hide EncodeOne, Shed, Representable;
    if sample.track in s.encoders {
      FrameExactly(s.encoders[sample.track], sample);
      MadeGroup(s, sample);
    }
  }

  lemma MadeGroup(s: Session, sample: Sample)
    requires sample.Bounded() && sample.track in s.encoders && !s.failed
    ensures var e := s.encoders[sample.track];
      var made := EncodeOne(e, sample).1;
      (made.Object? ==> made.fragment.group + s.initial == PublishedGroup(s, e, sample)) &&
      (IngestOne(s, sample).failed <==>
         made.Threw? || (made.Object? && made.fragment.group + s.initial > MaxGroupId))
  {
    hide EncodeOne, Shed, Representable;
    FrameExactly(s.encoders[sample.track], sample);
  }
}
