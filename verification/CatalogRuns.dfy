/**
 * Whole runs of the catalog publisher against a subscriber that joins at object
 * 0 of any group and applies what follows (section 5.3 of
 * draft-ietf-moq-msf-01). The subscriber is strict: adding a track it holds, or
 * removing one it lacks, breaks it.
 */
module CatalogRuns {
  import opened Bytes
  import opened Catalog
  import opened CatalogPublisher

  // ---- the subscriber

  datatype View = View(version: string, complete: bool, protections: seq<Protection>, tracks: map<Key, Track>,
                       publishTracks: seq<Track>, initData: seq<InitData>)

  function ViewOf(c: Catalog): View {
    View(c.version, c.isComplete == Some(true), c.protections, TrackMap(c.tracks), c.publishTracks, c.initData)
  }

  function AddAll(m: map<Key, Track>, ts: seq<Track>): Option<map<Key, Track>> {
    if ts == [] then Some(m)
    else
      var n := |ts| - 1;
      var before := AddAll(m, ts[..n]);
      if before.None? || KeyOf(ts[n]) in before.value then None else Some(before.value[KeyOf(ts[n]) := ts[n]])
  }

  function NameKey(name: (string, Option<string>)): Key {
    Key(if name.1.Some? then name.1.value else "", name.0)
  }

  function RemoveAll(m: map<Key, Track>, names: seq<(string, Option<string>)>): Option<map<Key, Track>> {
    if names == [] then Some(m)
    else
      var n := |names| - 1;
      var before := RemoveAll(m, names[..n]);
      if before.None? || NameKey(names[n]) !in before.value then None else Some(before.value - {NameKey(names[n])})
  }

  function ApplyOp(m: map<Key, Track>, op: Op): Option<map<Key, Track>> {
    match op
    case Add(tracks) => AddAll(m, tracks)
    case Remove(names) => RemoveAll(m, names)
  }

  function ApplyOps(m: map<Key, Track>, ops: seq<Op>): Option<map<Key, Track>>
    decreases |ops|
  {
    if ops == [] then Some(m)
    else
      var next := ApplyOp(m, ops[0]);
      if next.None? then None else ApplyOps(next.value, ops[1..])
  }

  function Apply(v: Option<View>, d: Document): Option<View> {
    match d
    case Independent(version, complete, protections, tracks, publishTracks, initData) =>
      Some(View(version, complete, protections, TrackMap(tracks), publishTracks, initData))
    case Delta(complete, ops) =>
      if v.None? then None
      else
        var tracks := ApplyOps(v.value.tracks, ops);
        if tracks.None? then None
        else Some(v.value.(tracks := tracks.value, complete := v.value.complete || complete))
  }

  /** A subscriber with nothing yet that receives these objects in order. */
  function Replay(objects: seq<CatalogObject>): Option<View> {
    if objects == [] then None
    else Apply(Replay(objects[..|objects| - 1]), objects[|objects| - 1].document)
  }

  // ---- a delta turns one track map into the other

  ghost predicate Distinct(ts: seq<Track>) {
    forall i, j | 0 <= i < j < |ts| :: KeyOf(ts[i]) != KeyOf(ts[j])
  }

  /** A map grown by tracks it lacked. */
  ghost predicate With(m: map<Key, Track>, ts: seq<Track>, grown: map<Key, Track>) {
    (forall k :: k in grown <==> k in m || exists t | t in ts :: KeyOf(t) == k) &&
    (forall k | k in m :: grown[k] == m[k]) && forall t | t in ts :: grown[KeyOf(t)] == t
  }

  /** What is left of a map once the keys of the tracks are gone. */
  ghost predicate Without(m: map<Key, Track>, ts: seq<Track>, left: map<Key, Track>) {
    (forall k :: k in left <==> k in m && forall t | t in ts :: KeyOf(t) != k) && forall k | k in left :: left[k] == m[k]
  }

  lemma OneMore(m: map<Key, Track>, ts: seq<Track>, so: map<Key, Track>)
    requires ts != [] && Distinct(ts)
    ensures var n, t := |ts| - 1, ts[|ts| - 1];
      Distinct(ts[..n]) &&
      (With(m, ts[..n], so) && KeyOf(t) !in m ==> KeyOf(t) !in so && With(m, ts, so[KeyOf(t) := t])) &&
      (Without(m, ts[..n], so) && KeyOf(t) in m ==> KeyOf(t) in so && Without(m, ts, so - {KeyOf(t)}))
  {
    hide KeyOf;
    assert forall t :: t in ts <==> t in ts[..|ts| - 1] || t == ts[|ts| - 1];
  }

  lemma {:induction false} AddAllEffect(m: map<Key, Track>, ts: seq<Track>)
    requires Distinct(ts) && forall t | t in ts :: KeyOf(t) !in m
    ensures AddAll(m, ts).Some? && With(m, ts, AddAll(m, ts).value)
  {
    if ts != [] {
      hide Distinct, KeyOf, With;
      var n := |ts| - 1;
      OneMore(m, ts, m);
      AddAllEffect(m, ts[..n]);
      OneMore(m, ts, AddAll(m, ts[..n]).value);
    }
  }

  lemma NamesStep(ts: seq<Track>)
    requires ts != []
    ensures |Names(ts)| == |ts| && Names(ts)[..|ts| - 1] == Names(ts[..|ts| - 1])
    ensures NameKey(Names(ts)[|ts| - 1]) == KeyOf(ts[|ts| - 1])
  {
  }

  lemma {:induction false} RemoveAllEffect(m: map<Key, Track>, ts: seq<Track>)
    requires Distinct(ts) && forall t | t in ts :: KeyOf(t) in m
    ensures RemoveAll(m, Names(ts)).Some? && Without(m, ts, RemoveAll(m, Names(ts)).value)
  {
    if ts != [] {
      hide Distinct, KeyOf, NameKey, Names, Without;
      var n := |ts| - 1;
      NamesStep(ts);
      OneMore(m, ts, m);
      RemoveAllEffect(m, ts[..n]);
      OneMore(m, ts, RemoveAll(m, Names(ts[..n])).value);
    }
  }

  lemma {:induction false} MissingIs(these: seq<Track>, those: seq<Track>)
    requires Sorted(these)
    ensures forall t :: t in Missing(these, those) <==> t in these && Find(those, KeyOf(t)).None?
    ensures Sorted(Missing(these, those))
  {
    if these != [] {
      MissingIs(these[..|these| - 1], those);
    }
  }

  lemma SortedIsDistinct(ts: seq<Track>)
    requires Sorted(ts)
    ensures Distinct(ts)
  {
    forall i, j | 0 <= i < j < |ts|
      ensures KeyOf(ts[i]) != KeyOf(ts[j])
    {
      KeysOrdered(KeyOf(ts[i]), KeyOf(ts[j]));
    }
  }

  /** Both ordered maps of the differ, as values. */
  lemma KeyedHolds(ts: seq<Track>)
    ensures Sorted(Keyed(ts))
    ensures forall k :: k in TrackMap(ts) <==> exists t | t in Keyed(ts) :: KeyOf(t) == k
    ensures forall t | t in Keyed(ts) :: KeyOf(t) in TrackMap(ts) && TrackMap(ts)[KeyOf(t)] == t
    ensures forall k :: Find(Keyed(ts), k) == if k in TrackMap(ts) then Some(TrackMap(ts)[k]) else None
  {
    KeyedSorted(ts);
    forall k
      ensures Find(Keyed(ts), k) == if k in TrackMap(ts) then Some(TrackMap(ts)[k]) else None
      ensures k in TrackMap(ts) <==> exists t | t in Keyed(ts) :: KeyOf(t) == k
    {
      KeyedIsTrackMap(ts, k);
      FindIs(Keyed(ts), k);
    }
    forall t | t in Keyed(ts)
      ensures KeyOf(t) in TrackMap(ts) && TrackMap(ts)[KeyOf(t)] == t
    {
      var i :| 0 <= i < |Keyed(ts)| && Keyed(ts)[i] == t;
      FindSorted(Keyed(ts), i);
    }
  }

  /** What the differ finds between two maps. */
  ghost predicate Differs(before: map<Key, Track>, after: map<Key, Track>, added: seq<Track>, removed: seq<Track>) {
    (forall t :: t in added <==> KeyOf(t) in after && KeyOf(t) !in before && after[KeyOf(t)] == t) &&
    (forall t :: t in removed <==> KeyOf(t) in before && KeyOf(t) !in after && before[KeyOf(t)] == t) &&
    (forall k | k in before && k in after :: before[k] == after[k])
  }

  lemma DifferFinds(last: seq<Track>, desired: seq<Track>)
    requires !SomeChanged(Keyed(desired), Keyed(last))
    ensures var added, removed := Missing(Keyed(desired), Keyed(last)), Missing(Keyed(last), Keyed(desired));
      Differs(TrackMap(last), TrackMap(desired), added, removed) && Distinct(added) && Distinct(removed)
  {
    hide Missing, Keyed, TrackMap, Find, Sorted, KeyOf;
    KeyedHolds(last);
    KeyedHolds(desired);
    MissingIs(Keyed(desired), Keyed(last));
    MissingIs(Keyed(last), Keyed(desired));
    SortedIsDistinct(Missing(Keyed(desired), Keyed(last)));
    SortedIsDistinct(Missing(Keyed(last), Keyed(desired)));
  }

  lemma Reached(before: map<Key, Track>, after: map<Key, Track>, grown: map<Key, Track>, reached: map<Key, Track>,
                added: seq<Track>, removed: seq<Track>)
    requires Differs(before, after, added, removed) && With(before, added, grown) && Without(grown, removed, reached)
    requires forall k | k in before :: KeyOf(before[k]) == k
    requires forall k | k in after :: KeyOf(after[k]) == k
    ensures reached == after
  {
    hide KeyOf;
  }

  /** The differ is exact: adding and removing what it found gives the new map. */
  lemma DeltaReaches(last: seq<Track>, desired: seq<Track>)
    requires !SomeChanged(Keyed(desired), Keyed(last))
    ensures var added, removed := Missing(Keyed(desired), Keyed(last)), Missing(Keyed(last), Keyed(desired));
      AddAll(TrackMap(last), added).Some? &&
      RemoveAll(AddAll(TrackMap(last), added).value, Names(removed)) == Some(TrackMap(desired))
  {
    hide SomeChanged, Missing, Keyed, TrackMap, AddAll, RemoveAll, KeyOf;
    var before, after := TrackMap(last), TrackMap(desired);
    var added, removed := Missing(Keyed(desired), Keyed(last)), Missing(Keyed(last), Keyed(desired));
    DifferFinds(last, desired);
    TrackMapKeys(last);
    TrackMapKeys(desired);
    AddAllEffect(before, added);
    var grown := AddAll(before, added).value;
    RemoveAllEffect(grown, removed);
    Reached(before, after, grown, RemoveAll(grown, Names(removed)).value, added, removed);
  }

  // ---- runs

  datatype Session = Session(publisher: Publisher, log: seq<CatalogObject>)

  /** One call; the log holds what was emitted since the last reset. */
  function Do(s: Session, call: Call): (r: Session)
    requires s.publisher.Started()
    ensures r.publisher.Started()
  {
    var (next, outcome) := Step(s.publisher, call);
    Session(next, if call.Reset? then [] else s.log + if outcome.Emitted? then outcome.objects else [])
  }

  function Run(calls: seq<Call>): (r: Session)
    ensures r.publisher.Started()
  {
    if calls == [] then Session(Fresh, []) else Do(Run(calls[..|calls| - 1]), calls[|calls| - 1])
  }

  /** The caller hands over whole catalogs, not delta lists. */
  predicate Plain(call: Call) {
    call.Publish? ==> call.desired.deltaUpdate == []
  }

  ghost predicate AllPlain(calls: seq<Call>) {
    forall c | c in calls :: Plain(c)
  }

  predicate Follows(a: CatalogObject, b: CatalogObject) {
    if b.document.Independent? then b.group == a.group + 1 && b.id == 0
    else b.group == a.group && b.id == a.id + 1
  }

  /** The first object opens a group; each next one continues it or opens the following one. */
  ghost predicate Ordered(log: seq<CatalogObject>) {
    (log != [] ==> log[0].id == 0 && log[0].document.Independent?) &&
    forall i | 0 < i < |log| :: Follows(log[i - 1], log[i])
  }

  ghost predicate SameMedia(v: View, c: Catalog) {
    v.tracks == TrackMap(c.tracks) && v.publishTracks == c.publishTracks && v.initData == c.initData &&
    v.protections == c.protections
  }

  ghost predicate SameHead(a: Catalog, b: Catalog) {
    a.version == b.version && (a.isComplete == Some(true) <==> b.isComplete == Some(true))
  }

  ghost predicate Aligned(p: Publisher, log: seq<CatalogObject>) {
    log != [] && log[|log| - 1].group + 1 == p.nextGroup <= MaxGroupId + 1 && log[|log| - 1].id + 1 == p.nextObject &&
    p.nextObject == p.deltas + 1
  }

  ghost predicate Publishable(c: Catalog) {
    c.deltaUpdate == [] && Serializable(c)
  }

  ghost predicate Inv(s: Session) {
    s.publisher.Started() && Ordered(s.log) &&
    match s.publisher.last
    case None => s.log == [] && !s.publisher.ended
    case Some(c) =>
      Publishable(c) && Aligned(s.publisher, s.log) && Replay(s.log).Some? && SameMedia(Replay(s.log).value, c)
  }

  lemma ReplayAppend(log: seq<CatalogObject>, o: CatalogObject)
    ensures Replay(log + [o]) == Apply(Replay(log), o.document)
  {
    assert (log + [o])[..|log|] == log;
  }

  lemma OrderedAppend(log: seq<CatalogObject>, o: CatalogObject)
    requires Ordered(log)
    requires if log == [] then o.id == 0 && o.document.Independent? else Follows(log[|log| - 1], o)
    ensures Ordered(log + [o])
  {
  }

  lemma IndependentKeepsInv(s: Session, c: Catalog, ended: bool)
    requires Inv(s) && c.deltaUpdate == []
    requires s.publisher.last.None? ==> s.log == []
    ensures var (next, outcome) := EmitIndependent(s.publisher, c, c, ended);
      if outcome.Threw? then next == s.publisher
      else |outcome.objects| == 1 && Inv(Session(next, s.log + outcome.objects)) &&
           Replay(s.log + outcome.objects) == Some(ViewOf(c))
  {
    hide Serializable, TrackMap;
    var (next, outcome) := EmitIndependent(s.publisher, c, c, ended);
    if outcome.Emitted? {
      var o := outcome.objects[0];
      ReplayAppend(s.log, o);
      OrderedAppend(s.log, o);
    }
  }

  lemma OpsReach(last: Catalog, desired: Catalog)
    requires Expressible(last, desired)
    ensures var delta := DeltaOf(Missing(Keyed(desired.tracks), Keyed(last.tracks)),
                                 Missing(Keyed(last.tracks), Keyed(desired.tracks)));
      Serialized(delta).Delta? && !Serialized(delta).complete &&
      ApplyOps(TrackMap(last.tracks), Serialized(delta).ops) == Some(TrackMap(desired.tracks))
  {
    hide SomeChanged, Missing, Keyed, TrackMap;
    DeltaReaches(last.tracks, desired.tracks);
    var added, removed := Missing(Keyed(desired.tracks), Keyed(last.tracks)), Missing(Keyed(last.tracks), Keyed(desired.tracks));
    OpsOf(TrackMap(last.tracks), added, removed);
  }

  /** A delta document applies as its additions, then its removals. */
  lemma OpsOf(m: map<Key, Track>, added: seq<Track>, removed: seq<Track>)
    requires (added != [] || removed != []) && AddAll(m, added).Some?
    ensures Serialized(DeltaOf(added, removed)).Delta? && !Serialized(DeltaOf(added, removed)).complete
    ensures ApplyOps(m, Serialized(DeltaOf(added, removed)).ops) == RemoveAll(AddAll(m, added).value, Names(removed))
  {
    hide AddAll, RemoveAll;
    var delta := DeltaOf(added, removed);
    var ops := Serialized(delta).ops;
    NothingApplied(m);
    if added != [] && removed != [] {
      assert ops == [Add(added), Remove(Names(removed))];
      TwoOps(m, Add(added), Remove(Names(removed)));
    } else if added != [] {
      assert ops == [Add(added)];
      NothingApplied(AddAll(m, added).value);
    } else {
      assert ops == [Remove(Names(removed))];
    }
  }

  lemma TwoOps(m: map<Key, Track>, a: Op, b: Op)
    requires ApplyOp(m, a).Some?
    ensures ApplyOps(m, [a, b]) == ApplyOp(ApplyOp(m, a).value, b)
  {
    var n := ApplyOp(m, a).value;
    assert [a, b][1..] == [b];
    assert ApplyOps(m, [a, b]) == ApplyOps(n, [b]);
    assert [b][1..] == [];
    var r := ApplyOp(n, b);
    assert r.Some? ==> ApplyOps(r.value, []) == r;
    assert ApplyOps(n, [b]) == r;
  }

  lemma NothingApplied(m: map<Key, Track>)
    ensures AddAll(m, []) == Some(m) && RemoveAll(m, Names([])) == Some(m)
  {
    assert Names([]) == [];
  }

  /** After a delta the new catalog is still one the publisher can write in full. */
  lemma DeltaKeepsPublishable(last: Catalog, desired: Catalog)
    requires Publishable(last) && ValidCatalog(desired) && desired.deltaUpdate == [] && Expressible(last, desired)
    requires Serializable(DeltaOf(Missing(Keyed(desired.tracks), Keyed(last.tracks)),
                                  Missing(Keyed(last.tracks), Keyed(desired.tracks))))
    ensures Publishable(desired)
  {
    hide ValidTrack, ValidCatalog, Missing, Keyed, TrackMap, SomeChanged, Find;
    var before, after := Keyed(last.tracks), Keyed(desired.tracks);
    var added := Missing(after, before);
    AddedAreValid(added, Missing(before, after));
    KeyedHolds(last.tracks);
    KeyedHolds(desired.tracks);
    MissingIs(after, before);
    KeyedSorted(last.tracks);
    FirstOfUnique(desired);
    forall t | t in desired.tracks
      ensures ValidTrack(t)
    {
      assert t in after;
      if Find(before, KeyOf(t)).None? {
        assert t in added;
      } else {
        DifferFinds(last.tracks, desired.tracks);
        assert t == TrackMap(last.tracks)[KeyOf(t)];
        TrackMapKeys(last.tracks);
      }
    }
  }

  lemma AddedAreValid(added: seq<Track>, removed: seq<Track>)
    requires Serializable(DeltaOf(added, removed))
    ensures ValidTracks(added)
  {
    hide ValidTrack, ValidCatalog;
    if added != [] {
      var ops := DeltaOf(added, removed).deltaUpdate;
      assert ops[0] == DeltaOp("add", added) && ops[0] in ops;
    }
  }

  lemma FirstOfUnique(c: Catalog)
    requires ValidCatalog(c) && c.deltaUpdate == []
    ensures forall t | t in c.tracks :: t in Keyed(c.tracks)
  {
    hide Keyed, TrackMap, ValidProtections, ValidInitData, Find;
    assert UniqueKeys(c.tracks) by {
      var all := c.tracks + c.publishTracks;
      assert forall i | 0 <= i < |c.tracks| :: all[i] == c.tracks[i];
    }
    TrackMapKeys(c.tracks);
    KeyedHolds(c.tracks);
    forall t | t in c.tracks
      ensures t in Keyed(c.tracks)
    {
      FindIs(Keyed(c.tracks), KeyOf(t));
    }
  }

  lemma DeltaKeepsInv(s: Session, desired: Catalog)
    requires Inv(s) && s.publisher.last.Some? && ValidCatalog(desired) && desired.deltaUpdate == []
    requires Expressible(s.publisher.last.value, desired)
    ensures var (next, outcome) := EmitDelta(s.publisher, s.publisher.last.value, desired);
      if outcome.Threw? then next == s.publisher
      else |outcome.objects| == 1 && Inv(Session(next, s.log + outcome.objects)) &&
           outcome.objects[0].document.Delta? &&
           Replay(s.log + outcome.objects).value == Replay(s.log).value.(tracks := TrackMap(desired.tracks))
  {
    hide Serializable, Serialized, ValidCatalog, Missing, Keyed, TrackMap, SomeChanged;
    var last := s.publisher.last.value;
    var (next, outcome) := EmitDelta(s.publisher, last, desired);
    if outcome.Emitted? {
      var o := outcome.objects[0];
      OpsReach(last, desired);
      DeltaKeepsPublishable(last, desired);
      ReplayAppend(s.log, o);
      OrderedAppend(s.log, o);
    }
  }

  lemma PublishKeepsInv(s: Session, desired: Catalog)
    requires Inv(s) && desired.deltaUpdate == []
    ensures Inv(Do(s, Call.Publish(desired)))
  {
    hide Serializable, Serialized, ValidCatalog, Expressible, EmitIndependent, EmitDelta, Ordered, Aligned, SameMedia,
      Publishable;
    var p := s.publisher;
    assert s.log + [] == s.log;
    if p.last.Some? && Expressible(p.last.value, desired) && ValidCatalog(desired) {
      DeltaKeepsInv(s, desired);
    }
    IndependentKeepsInv(s, desired, false);
  }

  lemma StepKeepsInv(s: Session, call: Call)
    requires Inv(s) && Plain(call)
    ensures Inv(Do(s, call))
  {
    hide Serializable, Serialized, PublishStep, EmitIndependent, FinalCatalog, Ordered, SameMedia, Publishable;
    assert s.log + [] == s.log;
    match call
    case Publish(desired) => PublishKeepsInv(s, desired);
    case EndBroadcast(mode, durations) =>
      var final := FinalCatalog(if s.publisher.last.Some? then s.publisher.last.value else EmptyCatalog, mode, durations);
      FinalIsPlain(if s.publisher.last.Some? then s.publisher.last.value else EmptyCatalog, mode, durations);
      IndependentKeepsInv(s, final, true);
    case ForceIndependent =>
      if s.publisher.last.Some? {
        LastIsPlain(s);
        IndependentKeepsInv(s, s.publisher.last.value, false);
      }
    case Reset => OrderedEmpty();
    case SetInitialGroup(group) =>
    case SetMaxDeltas(count) =>
  }

  lemma LastIsPlain(s: Session)
    requires Inv(s) && s.publisher.last.Some?
    ensures s.publisher.last.value.deltaUpdate == []
  {
  }

  lemma OrderedEmpty()
    ensures Ordered([])
  {
  }

  lemma FinalIsPlain(c: Catalog, mode: EndMode, durations: map<string, nat>)
    ensures FinalCatalog(c, mode, durations).deltaUpdate == []
  {
  }

  lemma {:induction false} RunKeepsInv(calls: seq<Call>)
    requires AllPlain(calls)
    ensures Inv(Run(calls))
  {
    hide Inv, Do;
    if calls == [] {
      FreshInv();
    } else {
      RunKeepsInv(calls[..|calls| - 1]);
      StepKeepsInv(Run(calls[..|calls| - 1]), calls[|calls| - 1]);
    }
  }

  lemma FreshInv()
    ensures Inv(Session(Fresh, []))
  {
  }

  // ---- the main results

  /** Joining at object 0 of any group gives what the whole log gives. */
  lemma {:induction false} JoinAnywhere(log: seq<CatalogObject>, i: nat)
    requires Ordered(log) && i < |log| && log[i].id == 0
    ensures Replay(log[i..]) == Replay(log)
    decreases |log|
  {
    var n := |log| - 1;
    assert log[i..][..n - i] == log[..n][i..];
    if i < n {
      JoinAnywhere(log[..n], i);
    } else if n > 0 {
      assert Follows(log[n - 1], log[n]);
    }
  }

  /**
   * The subscriber theorem: after any run, a subscriber that joined at object 0
   * of any group of this broadcast holds exactly the publisher's tracks, publish
   * tracks, init data and content protections.
   */
  lemma SubscriberHoldsLast(calls: seq<Call>, i: nat)
    requires AllPlain(calls) && i < |Run(calls).log| && Run(calls).log[i].id == 0
    ensures Run(calls).publisher.last.Some?
    ensures var v := Replay(Run(calls).log[i..]); v.Some? && SameMedia(v.value, Run(calls).publisher.last.value)
  {
    hide Run, Replay, SameMedia, Publishable, Aligned;
    RunKeepsInv(calls);
    JoinAnywhere(Run(calls).log, i);
  }

  /**
   * Version and isComplete are not compared by the differ. Subscribers that were
   * exact stay exact after a publish if and only if the publish is not a delta
   * under a different version or isComplete.
   */
  lemma PublishStaysExact(s: Session, desired: Catalog)
    requires Inv(s) && s.publisher.last.Some? && Replay(s.log) == Some(ViewOf(s.publisher.last.value))
    requires desired.deltaUpdate == [] && Step(s.publisher, Call.Publish(desired)).1.Emitted?
    ensures var r, last := Do(s, Call.Publish(desired)), s.publisher.last.value;
      Replay(r.log) == Some(ViewOf(r.publisher.last.value)) <==>
      !(Expressible(last, desired) && s.publisher.deltas < s.publisher.maxDeltas && !SameHead(last, desired))
  {
    hide Serializable, Serialized, ValidCatalog, Expressible, EmitIndependent, EmitDelta, Ordered, Aligned, SameMedia,
      Publishable, TrackMap, Replay;
    var p, last := s.publisher, s.publisher.last.value;
    assert s.log + [] == s.log;
    IndependentKeepsInv(s, desired, false);
    if CatalogsEqual(last, desired) {
      EqualIsNotExpressible(last, desired);
    } else if Expressible(last, desired) && ValidCatalog(desired) {
      DeltaKeepsInv(s, desired);
      RootOfExpressible(last, desired);
      EmitsLast(p, last, desired);
    } else {
      EmitsLast(p, last, desired);
    }
  }

  const PlainTrack := Track("a", None, "p", None, None, true, None, None, None, [], None, None, None, None, None, None,
                            None, None, map[], [],
                            Shape(None, None, None, None, None, None, None, None, None, None, None))

  /** A new version beside a new track: the delta leaves subscribers on the old version. */
  lemma VersionIsLost()
    ensures var renewed := EmptyCatalog.(version := "2", tracks := [PlainTrack]);
      var s := Run([Call.Publish(EmptyCatalog), Call.Publish(renewed)]);
      s.publisher.last == Some(renewed) && Replay(s.log).Some? && Replay(s.log).value.version == "1"
  {
    hide ValidTrack, Replay;
    var renewed := EmptyCatalog.(version := "2", tracks := [PlainTrack]);
    var calls := [Call.Publish(EmptyCatalog), Call.Publish(renewed)];
    assert calls[..1] == [Call.Publish(EmptyCatalog)] && calls[..1][..0] == [] && calls[..2][..1] == calls[..1];
    FreshInv();
    EmptySerializable();
    var first := Run(calls[..1]);
    assert Run([]) == Session(Fresh, []);
    assert first == Do(Run(calls[..1][..0]), calls[..1][0]);
    assert first == Do(Session(Fresh, []), Call.Publish(EmptyCatalog));
    IndependentKeepsInv(Session(Fresh, []), EmptyCatalog, false);
    SmallCatalogs(renewed);
    DeltaKeepsInv(first, renewed);
    assert Run(calls) == Do(first, Call.Publish(renewed));
  }

  lemma SmallCatalogs(renewed: Catalog)
    requires renewed == EmptyCatalog.(version := "2", tracks := [PlainTrack])
    ensures ValidCatalog(renewed) && Expressible(EmptyCatalog, renewed)
    ensures Missing(Keyed(renewed.tracks), Keyed([])) == [PlainTrack] && Missing(Keyed([]), Keyed(renewed.tracks)) == []
    ensures Serializable(DeltaOf([PlainTrack], []))
  {
    assert "2"[1..] == "" && "a"[1..] == "" && "p"[1..] == "";
    assert [PlainTrack][..0] == [];
    assert Keyed([PlainTrack]) == [PlainTrack];
    NothingProtected();
    assert ValidTrack(PlainTrack);
    assert DeltaOf([PlainTrack], []).deltaUpdate == [DeltaOp("add", [PlainTrack])];
  }

  lemma EqualIsNotExpressible(last: Catalog, desired: Catalog)
    requires CatalogsEqual(last, desired)
    ensures !Expressible(last, desired) && ViewOf(last) == ViewOf(desired)
  {
    hide TrackMap, Keyed, Find;
    var m := Keyed(last.tracks);
    KeyedSorted(last.tracks);
    MissingIs(m, m);
    forall t | t in m
      ensures Find(m, KeyOf(t)).Some?
    {
      FindIs(m, KeyOf(t));
    }
    if Missing(m, m) != [] {
      assert Missing(m, m)[0] in Missing(m, m);
    }
  }

  lemma RootOfExpressible(last: Catalog, desired: Catalog)
    requires Expressible(last, desired)
    ensures !RootChanged(last, desired)
  {
  }

  lemma EmitsLast(p: Publisher, last: Catalog, desired: Catalog)
    requires p.nextGroup > 0
    ensures EmitIndependent(p, desired, desired, false).1.Emitted? ==>
      EmitIndependent(p, desired, desired, false).0.last == Some(desired)
    ensures EmitDelta(p, last, desired).1.Emitted? ==> EmitDelta(p, last, desired).0.last == Some(desired)
  {
  }

  ghost predicate Precedes(a: CatalogObject, b: CatalogObject) {
    a.group < b.group || (a.group == b.group && a.id < b.id)
  }

  /**
   * Locations since the last reset strictly increase; a group opens with an
   * independent object 0 and only there; ids in a group count up by one.
   */
  lemma LocationsIncrease(calls: seq<Call>, i: nat, j: nat)
    requires AllPlain(calls) && i < j < |Run(calls).log|
    ensures var log := Run(calls).log;
      Precedes(log[i], log[j]) && (log[j].id == 0 <==> log[j].document.Independent?) &&
      (log[j].id > 0 ==> log[j - 1].group == log[j].group && log[j - 1].id + 1 == log[j].id) &&
      (log[j].id == 0 ==> log[j].group == log[j - 1].group + 1) && log[0].document.Independent? && log[0].id == 0
  {
    hide Run, Replay, SameMedia, Publishable, Aligned;
    RunKeepsInv(calls);
    OrderedPrecedes(Run(calls).log, i, j);
    assert Follows(Run(calls).log[j - 1], Run(calls).log[j]);
  }

  lemma {:induction false} OrderedPrecedes(log: seq<CatalogObject>, i: nat, j: nat)
    requires Ordered(log) && i < j < |log|
    ensures Precedes(log[i], log[j])
    decreases j
  {
    assert Follows(log[j - 1], log[j]);
    if i < j - 1 {
      OrderedPrecedes(log, i, j - 1);
    }
  }

  ghost predicate WithinCap(log: seq<CatalogObject>, cap: nat) {
    forall o | o in log :: o.id <= cap
  }

  /** A group never holds more deltas than the largest cap that was set. */
  lemma {:induction false} DeltasWithinCap(calls: seq<Call>, cap: nat)
    requires AllPlain(calls) && Fresh.maxDeltas <= cap
    requires forall c | c in calls && c.SetMaxDeltas? :: c.count <= cap
    ensures WithinCap(Run(calls).log, cap) && Run(calls).publisher.maxDeltas <= cap
  {
    if calls != [] {
      var before, call := calls[..|calls| - 1], calls[|calls| - 1];
      DeltasWithinCap(before, cap);
      RunKeepsInv(before);
      StepWithinCap(Run(before), call, cap);
    }
  }

  lemma StepWithinCap(s: Session, call: Call, cap: nat)
    requires Inv(s) && WithinCap(s.log, cap) && s.publisher.maxDeltas <= cap
    requires call.SetMaxDeltas? ==> call.count <= cap
    ensures WithinCap(Do(s, call).log, cap) && Do(s, call).publisher.maxDeltas <= cap
  {
    hide Serializable, Serialized, ValidCatalog, Expressible, FinalCatalog, Ordered, SameMedia, Publishable;
    assert s.log + [] == s.log;
    var (next, outcome) := Step(s.publisher, call);
    if outcome.Emitted? {
      assert |outcome.objects| <= 1;
      if outcome.objects != [] {
        assert outcome.objects[0].id <= cap;
      }
      assert forall o | o in s.log + outcome.objects :: o in s.log || o in outcome.objects;
    }
  }

  /** A call that throws changes nothing, and after the broadcast ended only a reset leads anywhere. */
  lemma ThrowsAndEnds(p: Publisher, call: Call)
    requires p.Started()
    ensures Step(p, call).1.Threw? ==> Step(p, call).0 == p
    ensures p.ended && !call.Reset? ==>
      Step(p, call).0.ended && (Step(p, call).1.Threw? || Step(p, call).1.objects == [])
    ensures p.ended && (call.Publish? || call.EndBroadcast? || call.ForceIndependent?) ==> Step(p, call).1.Threw?
  {
    hide Serializable, Serialized, ValidCatalog, Expressible, FinalCatalog;
  }

  /** The last catalog can always be written again: republishing fails only for want of group ids. */
  lemma ForceThrowsOnlyWithoutGroups(calls: seq<Call>)
    requires AllPlain(calls)
    ensures var p := Run(calls).publisher;
      Step(p, ForceIndependent).1.Threw? <==> p.ended || (p.last.Some? && p.nextGroup > MaxGroupId)
  {
    hide Run, Serializable, Ordered;
    RunKeepsInv(calls);
  }

  ghost predicate Encrypted(c: Catalog) {
    exists t | t in c.tracks + c.publishTracks :: t.protectionRefs != []
  }

  /**
   * Ending as a video-on-demand asset drops the contentProtections list but keeps
   * the tracks' references to it, so it throws exactly when some track of the last
   * catalog is protected; terminating never does.
   */
  lemma EndThrowsExactlyWhenEncrypted(calls: seq<Call>, mode: EndMode, durations: map<string, nat>)
    requires AllPlain(calls)
    ensures var p := Run(calls).publisher;
      Step(p, Call.EndBroadcast(mode, durations)).1.Threw? <==>
      p.ended || p.nextGroup > MaxGroupId || (mode.ConvertToVod? && p.last.Some? && Encrypted(p.last.value))
  {
    hide Run, Serializable, Ordered, FinalCatalog, Encrypted;
    RunKeepsInv(calls);
    var p := Run(calls).publisher;
    if p.last.Some? {
      FinalSerializable(p.last.value, mode, durations);
    } else {
      EmptySerializable();
      FinalSerializable(EmptyCatalog, mode, durations);
    }
  }

  lemma EmptySerializable()
    ensures Publishable(EmptyCatalog) && !Encrypted(EmptyCatalog)
  {
    assert NoStrayPercent("1"[1..]);
  }

  lemma FinalSerializable(c: Catalog, mode: EndMode, durations: map<string, nat>)
    requires Publishable(c)
    ensures Serializable(FinalCatalog(c, mode, durations)) <==> mode.Terminate? || !Encrypted(c)
  {
    hide ValidTrack, ValidTracks, ValidProtections, ValidInitData, NoStrayPercent, Resolves, MapTracks;
    NothingProtected();
    if mode.ConvertToVod? {
      var f := FinalCatalog(c, mode, durations);
      VodTracks(c.tracks, durations);
      VodTracks(c.publishTracks, map[]);
      FinalTracks(c.tracks + c.publishTracks, f.tracks + f.publishTracks, c, f);
    } else {
      assert forall t: Track :: t !in [];
      assert ValidTracks([]) && forall t: Track | t in [] :: Resolves(t, EmptyCatalog) by { NoTracks(); }
    }
  }

  lemma NoTracks()
    ensures ValidTracks([])
  {
  }

  /** Every track of a VOD catalog comes from the one at its place. */
  lemma VodTracks(ts: seq<Track>, durations: map<string, nat>)
    ensures |MapTracks(ts, durations)| == |ts|
    ensures forall i | 0 <= i < |ts| :: AsVodOf(ts[i], MapTracks(ts, durations)[i])
    ensures ValidTracks(ts) ==> ValidTracks(MapTracks(ts, durations))
  {
    hide ValidTrack;
    forall i | 0 <= i < |ts|
      ensures AsVodOf(ts[i], MapTracks(ts, durations)[i])
    {
      VodKeeps(ts[i], durations);
    }
  }

  /** What becoming a VOD track keeps. */
  ghost predicate AsVodOf(t: Track, v: Track) {
    KeyOf(t) == KeyOf(v) && t.initRef == v.initRef && t.protectionRefs == v.protectionRefs && (ValidTrack(t) ==> ValidTrack(v))
  }

  lemma VodKeeps(t: Track, durations: map<string, nat>)
    ensures AsVodOf(t, AsVod(t, durations))
  {
    hide NoStrayPercent;
  }

  lemma NothingProtected()
    ensures ProtectionIds([]) == {} && ValidProtections([]) && InitIds([]) == {} && ValidInitData([])
  {
  }

  lemma FinalTracks(before: seq<Track>, after: seq<Track>, c: Catalog, f: Catalog)
    requires |before| == |after| && forall i | 0 <= i < |before| :: AsVodOf(before[i], after[i])
    requires UniqueKeys(before) && f.initData == c.initData && f.protections == []
    requires forall t | t in before :: Resolves(t, c)
    ensures UniqueKeys(after)
    ensures (forall t | t in after :: Resolves(t, f)) <==> forall t | t in before :: t.protectionRefs == []
  {
    hide ValidTrack, InitIds;
    NothingProtected();
    if forall t | t in after :: Resolves(t, f) {
      forall t | t in before
        ensures t.protectionRefs == []
      {
        var i :| 0 <= i < |before| && before[i] == t;
        assert Resolves(after[i], f);
        NoMembers(t.protectionRefs);
      }
    }
  }

  lemma NoMembers(s: seq<string>)
    ensures (forall x :: x !in s) ==> s == []
  {
    if s != [] {
      assert s[0] in s;
    }
  }
}
