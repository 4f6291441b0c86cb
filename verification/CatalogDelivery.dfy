/**
 * What a publish comes to for what the caller asked: nothing only when subscribers were
 * told as much already, and otherwise a document that makes them hold what was asked.
 */
module CatalogDelivery {
  import opened Bytes
  import opened Catalog
  import opened CatalogPublisher
  import opened CatalogRuns

  /** Two catalogs that say the same. */
  ghost predicate Agrees(a: Catalog, b: Catalog) {
    a.version == b.version && a.isComplete == b.isComplete && a.protections == b.protections && a.tracks == b.tracks &&
    a.publishTracks == b.publishTracks && a.initData == b.initData
  }

  /** The track maps differ, but not on a track both have, and nothing else differs that a delta could not say. */
  ghost predicate WholeTracksOnly(last: Catalog, desired: Catalog) {
    var before, after := TrackMap(last.tracks), TrackMap(desired.tracks);
    before != after && (forall k | k in before && k in after :: before[k] == after[k]) &&
    last.initData == desired.initData && last.publishTracks == desired.publishTracks && last.protections == desired.protections
  }

  lemma ExpressibleExactly(last: Catalog, desired: Catalog)
    ensures Expressible(last, desired) <==> WholeTracksOnly(last, desired)
  {
    hide Keyed, TrackMap, Missing, SomeChanged;
    ChangedExactly(last.tracks, desired.tracks);
    if !SomeChanged(Keyed(desired.tracks), Keyed(last.tracks)) {
      NothingMissing(last.tracks, desired.tracks);
    }
  }

  lemma ChangedExactly(last: seq<Track>, desired: seq<Track>)
    ensures SomeChanged(Keyed(desired), Keyed(last)) <==>
      exists k :: k in TrackMap(last) && k in TrackMap(desired) && TrackMap(last)[k] != TrackMap(desired)[k]
  {
    hide Keyed, TrackMap, Find, KeyOf;
    KeyedHolds(last);
    KeyedHolds(desired);
    if SomeChanged(Keyed(desired), Keyed(last)) {
      var t :| t in Keyed(desired) && Find(Keyed(last), KeyOf(t)).Some? && Find(Keyed(last), KeyOf(t)).value != t;
      assert KeyOf(t) in TrackMap(last) && TrackMap(desired)[KeyOf(t)] == t;
    }
    if k :| k in TrackMap(last) && k in TrackMap(desired) && TrackMap(last)[k] != TrackMap(desired)[k] {
      var t :| t in Keyed(desired) && KeyOf(t) == k;
      assert TrackMap(desired)[k] == t;
    }
  }

  lemma NothingMissing(last: seq<Track>, desired: seq<Track>)
    requires !SomeChanged(Keyed(desired), Keyed(last))
    ensures Missing(Keyed(desired), Keyed(last)) == [] && Missing(Keyed(last), Keyed(desired)) == [] <==>
      TrackMap(last) == TrackMap(desired)
  {
    hide Keyed, TrackMap, Missing, SomeChanged, KeyOf;
    DifferFinds(last, desired);
    TrackMapKeys(last);
    TrackMapKeys(desired);
    var added, removed := Missing(Keyed(desired), Keyed(last)), Missing(Keyed(last), Keyed(desired));
    if added != [] {
      assert added[0] in added;
    }
    if removed != [] {
      assert removed[0] in removed;
    }
    if added == [] && removed == [] {
      NoDifference(TrackMap(last), TrackMap(desired));
    }
  }

  lemma NoDifference(before: map<Key, Track>, after: map<Key, Track>)
    requires Differs(before, after, [], [])
    requires (forall k | k in before :: KeyOf(before[k]) == k) && forall k | k in after :: KeyOf(after[k]) == k
    ensures before == after
  {
    hide KeyOf;
    forall k
      ensures k in before <==> k in after
    {
      if k in after {
        var t := after[k];
        assert KeyOf(t) == k && t !in [];
      }
      if k in before {
        var t := before[k];
        assert KeyOf(t) == k && t !in [];
      }
    }
  }

  // ---- one publish

  /** The document that says a catalog in full. */
  function Told(c: Catalog): Document {
    Independent(c.version, c.isComplete == Some(true), c.protections, c.tracks, c.publishTracks, c.initData)
  }

  /** A delta is due: the difference is whole tracks, and the group has room for one more. */
  ghost predicate DeltaIsDue(p: Publisher, desired: Catalog) {
    p.last.Some? && WholeTracksOnly(p.last.value, desired) && p.deltas < p.maxDeltas
  }

  /**
   * A publish that does not throw: silence exactly when the last catalog said the same
   * already; else one object, after which the last catalog is the one asked for. It is a
   * delta in the current group when one is due, and the whole catalog in the next group
   * otherwise.
   */
  lemma PublishTakesEffect(p: Publisher, desired: Catalog)
    requires p.Started() && desired.deltaUpdate == [] && Step(p, Call.Publish(desired)).1.Emitted?
    ensures var (next, outcome) := Step(p, Call.Publish(desired));
      next.last.Some? && Agrees(next.last.value, desired) &&
      (outcome.objects == [] <==> p.last.Some? && Agrees(p.last.value, desired)) &&
      (outcome.objects == [] ==> next == p) &&
      (outcome.objects != [] ==>
         next.last == Some(desired) && |outcome.objects| == 1 &&
         var o := outcome.objects[0];
         (if DeltaIsDue(p, desired) then o.document.Delta? && o.group + 1 == p.nextGroup && o.id == p.nextObject
          else o.document == Told(desired) && o.group == p.nextGroup && o.id == 0))
  {
    hide Serializable, ValidCatalog, Keyed, Missing, TrackMap, WholeTracksOnly, Expressible;
    if p.last.Some? {
      ExpressibleExactly(p.last.value, desired);
      if Agrees(p.last.value, desired) {
        AgreeingIsNotWhole(p.last.value, desired);
      } else if DeltaIsDue(p, desired) {
        DeltaIsDelta(p.last.value, desired);
      }
    }
  }

  lemma AgreeingIsNotWhole(last: Catalog, desired: Catalog)
    requires Agrees(last, desired)
    ensures !WholeTracksOnly(last, desired)
  {
  }

  lemma DeltaIsDelta(last: Catalog, desired: Catalog)
    requires Expressible(last, desired)
    ensures Serialized(DeltaOf(Missing(Keyed(desired.tracks), Keyed(last.tracks)),
                               Missing(Keyed(last.tracks), Keyed(desired.tracks)))).Delta?
  {
    hide Keyed, Missing, SomeChanged;
  }

  // ---- when a publish throws

  /** A delta can be written exactly when the catalog it leads to can. */
  lemma DeltaWritesExactly(last: Catalog, desired: Catalog)
    requires Publishable(last) && ValidCatalog(desired) && desired.deltaUpdate == [] && Expressible(last, desired)
    ensures var added, removed :=
        Missing(Keyed(desired.tracks), Keyed(last.tracks)), Missing(Keyed(last.tracks), Keyed(desired.tracks));
      Serializable(DeltaOf(added, removed)) <==> Serializable(desired)
  {
    hide ValidTrack, ValidCatalog, Serializable, Keyed, Missing, TrackMap, SomeChanged;
    var added, removed := Missing(Keyed(desired.tracks), Keyed(last.tracks)), Missing(Keyed(last.tracks), Keyed(desired.tracks));
    if Serializable(DeltaOf(added, removed)) {
      DeltaKeepsPublishable(last, desired);
    }
    if Serializable(desired) {
      FromTracks(desired.tracks, last.tracks);
      FromTracks(last.tracks, desired.tracks);
      TracksAreValid(desired);
      TracksAreValid(last);
      assert added != [] || removed != [];
      DeltaWrites(added, removed);
    }
  }

  lemma FromTracks(these: seq<Track>, those: seq<Track>)
    ensures forall t | t in Missing(Keyed(these), Keyed(those)) :: t in these
  {
    hide Keyed, TrackMap, Find;
    KeyedHolds(these);
    MissingIs(Keyed(these), Keyed(those));
    TrackMapKeys(these);
  }

  lemma TracksAreValid(c: Catalog)
    requires Publishable(c) || (c.deltaUpdate == [] && Serializable(c))
    ensures ValidTracks(c.tracks)
  {
    hide ValidTrack, ValidCatalog;
  }

  lemma DeltaWrites(added: seq<Track>, removed: seq<Track>)
    requires (added != [] || removed != []) && ValidTracks(added) && ValidTracks(removed)
    ensures Serializable(DeltaOf(added, removed))
  {
    hide NoStrayPercent;
    forall t | t in removed
      ensures NoStrayPercent(t.name) && NoStrayPercentIn(t.space)
    {
      assert ValidTrack(t);
    }
  }

  /**
   * A publish throws exactly after the end, or when it has something to say and either
   * what was asked for cannot be written or the group it needs has no id.
   */
  lemma PublishThrowsExactly(s: Session, desired: Catalog)
    requires Inv(s) && desired.deltaUpdate == []
    ensures var p := s.publisher;
      Step(p, Call.Publish(desired)).1.Threw? <==>
      p.ended ||
      (!(p.last.Some? && Agrees(p.last.value, desired)) &&
       (!Serializable(desired) || (!DeltaIsDue(p, desired) && p.nextGroup > MaxGroupId)))
  {
    hide Serializable, ValidCatalog, Keyed, Missing, TrackMap, WholeTracksOnly, Expressible, Ordered, Replay;
    var p := s.publisher;
    OnlyValidWrites(desired);
    if p.last.Some? {
      ExpressibleExactly(p.last.value, desired);
      if Expressible(p.last.value, desired) && ValidCatalog(desired) {
        DeltaWritesExactly(p.last.value, desired);
      }
    }
  }

  lemma OnlyValidWrites(c: Catalog)
    ensures Serializable(c) ==> ValidCatalog(c)
  {
  }

  // ---- the end of a broadcast

  /** A track of a video-on-demand asset: not live, its duration set where one was given, and otherwise the same. */
  ghost predicate IsVodTrack(t: Track, v: Track, durations: map<string, nat>) {
    !v.isLive && v.trackDuration == (if t.name in durations then Some(durations[t.name]) else t.trackDuration) &&
    v.(isLive := t.isLive, trackDuration := t.trackDuration) == t
  }

  ghost predicate AreVodTracks(ts: seq<Track>, vs: seq<Track>, durations: map<string, nat>) {
    |vs| == |ts| && forall i | 0 <= i < |ts| :: IsVodTrack(ts[i], vs[i], durations)
  }

  /** What a catalog becomes when its broadcast ends. */
  ghost predicate IsFinal(current: Catalog, mode: EndMode, durations: map<string, nat>, final: Catalog) {
    final.version == current.version && final.protections == [] && final.deltaUpdate == [] &&
    match mode
    case Terminate =>
      final.isComplete == Some(true) && final.tracks == [] && final.publishTracks == [] && final.initData == []
    case ConvertToVod =>
      final.isComplete == None && final.initData == current.initData &&
      AreVodTracks(current.tracks, final.tracks, durations) && AreVodTracks(current.publishTracks, final.publishTracks, map[])
  }

  lemma FinalIs(current: Catalog, mode: EndMode, durations: map<string, nat>)
    ensures IsFinal(current, mode, durations, FinalCatalog(current, mode, durations))
  {
  }

  /** Ending a broadcast emits the final catalog in full, in a group of its own, and nothing follows. */
  lemma EndTakesEffect(p: Publisher, mode: EndMode, durations: map<string, nat>)
    requires p.Started() && Step(p, Call.EndBroadcast(mode, durations)).1.Emitted?
    ensures var (next, outcome) := Step(p, Call.EndBroadcast(mode, durations));
      next.ended && next.last.Some? &&
      IsFinal(if p.last.Some? then p.last.value else EmptyCatalog, mode, durations, next.last.value) &&
      outcome.objects == [CatalogObject(p.nextGroup, 0, Told(next.last.value))]
  {
    hide Serializable, FinalCatalog;
    FinalIs(if p.last.Some? then p.last.value else EmptyCatalog, mode, durations);
  }

  // ---- runs

  /** What the calls so far asked subscribers to hold. */
  ghost function Asked(calls: seq<Call>): Option<Catalog> {
    if calls == [] then None
    else
      var before, call := Asked(calls[..|calls| - 1]), calls[|calls| - 1];
      var p := Run(calls[..|calls| - 1]).publisher;
      if Step(p, call).1.Threw? then before
      else
        match call
        case Publish(desired) => Some(desired)
        case EndBroadcast(mode, durations) =>
          FinalIs(if before.Some? then before.value else EmptyCatalog, mode, durations);
          var final: Catalog :| IsFinal(if before.Some? then before.value else EmptyCatalog, mode, durations, final);
          Some(final)
        case Reset => None
        case _ => before
  }

  lemma FinalOfAgreeing(a: Catalog, b: Catalog, mode: EndMode, durations: map<string, nat>, x: Catalog, y: Catalog)
    requires Agrees(a, b) && IsFinal(a, mode, durations, x) && IsFinal(b, mode, durations, y)
    ensures Agrees(x, y)
  {
    if mode.ConvertToVod? {
      SameVodTracks(a.tracks, x.tracks, y.tracks, durations);
      SameVodTracks(a.publishTracks, x.publishTracks, y.publishTracks, map[]);
    }
  }

  lemma SameVodTracks(ts: seq<Track>, x: seq<Track>, y: seq<Track>, durations: map<string, nat>)
    requires AreVodTracks(ts, x, durations) && AreVodTracks(ts, y, durations)
    ensures x == y
  {
    forall i | 0 <= i < |ts|
      ensures x[i] == y[i]
    {
      assert IsVodTrack(ts[i], x[i], durations) && IsVodTrack(ts[i], y[i], durations);
    }
  }

  /** The publisher remembers what it was asked, whatever it was silent about. */
  lemma {:induction false} LastIsAsked(calls: seq<Call>)
    requires AllPlain(calls)
    ensures var last := Run(calls).publisher.last;
      (last.Some? <==> Asked(calls).Some?) && (last.Some? ==> Agrees(last.value, Asked(calls).value))
  {
    hide Agrees, IsFinal, Inv, Step;
    if calls != [] {
      var before, call := calls[..|calls| - 1], calls[|calls| - 1];
      LastIsAsked(before);
      var p := Run(before).publisher;
      assert Plain(call) by { assert call in calls; }
      assert p.Started() by { RunKeepsInv(before); Begun(Run(before)); }
      if !call.EndBroadcast? {
        StepIsAsked(p, call, Asked(before));
      } else if Step(p, call).1.Threw? {
        ThrowsAndEnds(p, call);
      } else {
        EndTakesEffect(p, call.mode, call.durations);
        AgreesWithItself(EmptyCatalog);
        FinalOfAgreeing(if p.last.Some? then p.last.value else EmptyCatalog,
                        if Asked(before).Some? then Asked(before).value else EmptyCatalog, call.mode, call.durations,
                        Step(p, call).0.last.value, Asked(calls).value);
      }
    }
  }

  lemma Begun(s: Session)
    requires Inv(s)
    ensures s.publisher.Started()
  {
  }

  lemma AgreesWithItself(c: Catalog)
    ensures Agrees(c, c)
  {
  }

  lemma StepIsAsked(p: Publisher, call: Call, asked: Option<Catalog>)
    requires p.Started() && Plain(call) && !call.EndBroadcast?
    requires (p.last.Some? <==> asked.Some?) && (p.last.Some? ==> Agrees(p.last.value, asked.value))
    ensures var (next, outcome) := Step(p, call);
      (outcome.Threw? ==> next.last == p.last) &&
      (outcome.Emitted? && call.Publish? ==> next.last.Some? && Agrees(next.last.value, call.desired)) &&
      (outcome.Emitted? && call.Reset? ==> next.last.None?) &&
      (outcome.Emitted? && !call.Publish? && !call.Reset? ==> next.last == p.last)
  {
    hide Serializable, PublishStep;
    ThrowsAndEnds(p, call);
    if call.Publish? && Step(p, call).1.Emitted? {
      PublishTakesEffect(p, call.desired);
    }
  }

  /**
   * The subscriber theorem in terms of the calls: after any run, a subscriber that joined
   * at object 0 of any group of this broadcast holds exactly the tracks, publish tracks,
   * init data and content protections last asked for.
   */
  lemma SubscriberHoldsAsked(calls: seq<Call>, i: nat)
    requires AllPlain(calls) && i < |Run(calls).log| && Run(calls).log[i].id == 0
    ensures Asked(calls).Some?
    ensures var v := Replay(Run(calls).log[i..]); v.Some? && SameMedia(v.value, Asked(calls).value)
  {
    hide Run, Replay, Asked, TrackMap;
    SubscriberHoldsLast(calls, i);
    LastIsAsked(calls);
  }

  // ---- where a broadcast starts

  /** The first group last asked for, 0 when none was. */
  function InitialGroup(calls: seq<Call>): nat {
    if calls == [] then 0
    else
      var call := calls[|calls| - 1];
      if call.SetInitialGroup? then call.group else InitialGroup(calls[..|calls| - 1])
  }

  lemma {:induction false} BeforeTheFirst(calls: seq<Call>)
    ensures var p := Run(calls).publisher;
      p.initialGroup == InitialGroup(calls) && (p.last.None? ==> p.nextGroup == InitialGroup(calls) && !p.ended)
  {
    hide Serializable, ValidCatalog, Expressible;
    if calls != [] {
      BeforeTheFirst(calls[..|calls| - 1]);
    }
  }

  /** The first catalog of a broadcast, or the first after a reset, opens the first group asked for. */
  lemma OpensAtInitialGroup(calls: seq<Call>, desired: Catalog)
    requires desired.deltaUpdate == [] && Run(calls).publisher.last.None?
    requires Step(Run(calls).publisher, Call.Publish(desired)).1.Emitted?
    ensures Step(Run(calls).publisher, Call.Publish(desired)).1.objects ==
      [CatalogObject(InitialGroup(calls), 0, Told(desired))]
  {
    hide Run, Serializable, ValidCatalog, Expressible;
    BeforeTheFirst(calls);
  }

  /** A reset forgets what was published, the end included, and keeps what was set. */
  lemma ResetBegins(calls: seq<Call>)
    ensures var (p, again) := (Run(calls).publisher, Run(calls + [Call.Reset]).publisher);
      again.last.None? && !again.ended && again.nextGroup == InitialGroup(calls) && again.maxDeltas == p.maxDeltas &&
      again.initialGroup == InitialGroup(calls)
  {
    BeforeTheFirst(calls);
    assert (calls + [Call.Reset])[..|calls|] == calls;
  }
}
