/**
 * The catalog publisher: which document a call emits, at which Location, and
 * what it leaves behind. `Step` is the whole protocol as a function; the class
 * is the source's own form of it.
 */
module CatalogPublisher {
  import opened Bytes
  import opened Catalog

  const MaxGroupId := 0x3FFF_FFFF_FFFF_FFFF

  datatype CatalogObject = CatalogObject(group: nat, id: nat, document: Document)

  datatype Publisher = Publisher(last: Option<Catalog>, initialGroup: nat, nextGroup: nat, nextObject: nat,
                                 ended: bool, maxDeltas: nat, deltas: nat)
  {
    /** A published catalog sits in the group before the next one. */
    predicate Started() {
      last.Some? ==> nextGroup > 0
    }
  }

  datatype Outcome = Emitted(objects: seq<CatalogObject>) | Threw

  datatype EndMode = ConvertToVod | Terminate

  datatype Call =
    | Publish(desired: Catalog)
    | EndBroadcast(mode: EndMode, durations: map<string, nat>)
    | ForceIndependent
    | Reset
    | SetInitialGroup(group: nat)
    | SetMaxDeltas(count: nat)

  // ---- the differ

  /** `catalogs_equal`: everything but the generation time and a delta list. */
  predicate CatalogsEqual(a: Catalog, b: Catalog) {
    a.version == b.version && a.isComplete == b.isComplete && a.tracks == b.tracks &&
    a.publishTracks == b.publishTracks && a.initData == b.initData && a.protections == b.protections
  }

  predicate SomeChanged(after: seq<Track>, before: seq<Track>) {
    exists t | t in after :: Find(before, KeyOf(t)).Some? && Find(before, KeyOf(t)).value != t
  }

  /** The tracks of the first ordered map that the second lacks. */
  function Missing(these: seq<Track>, those: seq<Track>): seq<Track> {
    if these == [] then []
    else
      var n := |these| - 1;
      Missing(these[..n], those) + if Find(those, KeyOf(these[n])).None? then [these[n]] else []
  }

  predicate RootChanged(a: Catalog, b: Catalog) {
    a.initData != b.initData || a.publishTracks != b.publishTracks || a.protections != b.protections
  }

  function DeltaOf(added: seq<Track>, removed: seq<Track>): Catalog {
    EmptyCatalog.(deltaUpdate := (if added != [] then [DeltaOp("add", added)] else []) +
                                 (if removed != [] then [DeltaOp("remove", removed)] else []))
  }

  /** The two catalogs differ, and only by whole tracks added or removed. */
  predicate Expressible(last: Catalog, desired: Catalog) {
    var before, after := Keyed(last.tracks), Keyed(desired.tracks);
    !SomeChanged(after, before) && !(Missing(after, before) == [] && Missing(before, after) == []) &&
    !RootChanged(last, desired)
  }

  // ---- the protocol

  function EmitIndependent(p: Publisher, c: Catalog, next: Catalog, ended: bool): (Publisher, Outcome) {
    if !Serializable(c) || p.nextGroup > MaxGroupId then (p, Threw)
    else (p.(last := Some(next), nextGroup := p.nextGroup + 1, nextObject := 1, deltas := 0, ended := ended),
          Emitted([CatalogObject(p.nextGroup, 0, Serialized(c))]))
  }

  function EmitDelta(p: Publisher, last: Catalog, desired: Catalog): (Publisher, Outcome)
    requires p.nextGroup > 0
  {
    var before, after := Keyed(last.tracks), Keyed(desired.tracks);
    var delta := DeltaOf(Missing(after, before), Missing(before, after));
    if !Serializable(delta) then (p, Threw)
    else (p.(last := Some(desired), nextObject := p.nextObject + 1, deltas := p.deltas + 1),
          Emitted([CatalogObject(p.nextGroup - 1, p.nextObject, Serialized(delta))]))
  }

  function PublishStep(p: Publisher, desired: Catalog): (Publisher, Outcome)
    requires p.Started()
  {
    if p.ended then (p, Threw)
    else if p.last.None? then EmitIndependent(p, desired, desired, false)
    else if CatalogsEqual(p.last.value, desired) then (p, Emitted([]))
    else if !ValidCatalog(desired) then (p, Threw)
    else if Expressible(p.last.value, desired) && p.deltas < p.maxDeltas then EmitDelta(p, p.last.value, desired)
    else EmitIndependent(p, desired, desired, false)
  }

  function AsVod(t: Track, durations: map<string, nat>): Track {
    t.(isLive := false, trackDuration := if t.name in durations then Some(durations[t.name]) else t.trackDuration)
  }

  function MapTracks(ts: seq<Track>, durations: map<string, nat>): seq<Track> {
    seq(|ts|, i requires 0 <= i < |ts| => AsVod(ts[i], durations))
  }

  /** `make_end_broadcast_catalog`. */
  function FinalCatalog(current: Catalog, mode: EndMode, durations: map<string, nat>): Catalog {
    if mode.Terminate? then EmptyCatalog.(version := current.version, isComplete := Some(true))
    else
      Catalog(current.version, None, [], MapTracks(current.tracks, durations), MapTracks(current.publishTracks, map[]),
              current.initData, [])
  }

  function EndStep(p: Publisher, mode: EndMode, durations: map<string, nat>): (Publisher, Outcome) {
    if p.ended then (p, Threw)
    else
      var final := FinalCatalog(if p.last.Some? then p.last.value else EmptyCatalog, mode, durations);
      EmitIndependent(p, final, final, true)
  }

  function Step(p: Publisher, call: Call): (Publisher, Outcome)
    requires p.Started()
    ensures Step(p, call).0.Started()
  {
    match call
    case Publish(desired) => PublishStep(p, desired)
    case EndBroadcast(mode, durations) => EndStep(p, mode, durations)
    case ForceIndependent =>
      if p.ended then (p, Threw)
      else if p.last.None? then (p, Emitted([]))
      else EmitIndependent(p, p.last.value, p.last.value, false)
    case Reset => (p.(last := None, nextGroup := p.initialGroup, nextObject := 0, ended := false, deltas := 0), Emitted([]))
    case SetInitialGroup(group) =>
      (p.(initialGroup := group, nextGroup := if p.last.None? then group else p.nextGroup), Emitted([]))
    case SetMaxDeltas(count) => (p.(maxDeltas := count), Emitted([]))
  }

  const Fresh := Publisher(None, 0, 0, 0, false, 8, 0)

  // ---- the class

  method MarkVod(ts: seq<Track>, durations: map<string, nat>) returns (out: seq<Track>)
    ensures out == MapTracks(ts, durations)
  {
    out := [];
    for i := 0 to |ts|
      invariant out == MapTracks(ts, durations)[..i]
    {
      var t := ts[i].(isLive := false);
      if t.name in durations {
        t := t.(trackDuration := Some(durations[t.name]));
      }
      out := out + [t];
    }
  }

  method MakeEndCatalog(current: Catalog, mode: EndMode, durations: map<string, nat>) returns (out: Catalog)
    ensures out == FinalCatalog(current, mode, durations)
  {
    out := EmptyCatalog.(version := current.version);
    if mode.Terminate? {
      return out.(isComplete := Some(true));
    }
    var tracks := MarkVod(current.tracks, durations);
    var publishTracks := MarkVod(current.publishTracks, map[]);
    out := out.(initData := current.initData, tracks := tracks, publishTracks := publishTracks);
  }

  method BuildKeyed(ts: seq<Track>) returns (m: seq<Track>)
    ensures m == Keyed(ts)
  {
    m := [];
    for i := 0 to |ts|
      invariant m == Keyed(ts[..i])
    {
      assert ts[..i + 1][..i] == ts[..i];
      m := Emplace(m, ts[i]);
    }
    assert ts[..|ts|] == ts;
  }

  /** The differ's loop over the new map: stops at the first changed track. */
  method FindAdded(after: seq<Track>, before: seq<Track>) returns (changed: bool, added: seq<Track>)
    ensures changed <==> SomeChanged(after, before)
    ensures !changed ==> added == Missing(after, before)
  {
    added := [];
    for i := 0 to |after|
      invariant !SomeChanged(after[..i], before) && added == Missing(after[..i], before)
    {
      var t := after[i];
      assert after[..i + 1] == after[..i] + [t] && after[..i + 1][..i] == after[..i];
      var found := Find(before, KeyOf(t));
      if found.None? {
        added := added + [t];
      } else if found.value != t {
        return true, added;
      }
    }
    assert after[..|after|] == after;
    return false, added;
  }

  method FindRemoved(before: seq<Track>, after: seq<Track>) returns (removed: seq<Track>)
    ensures removed == Missing(before, after)
  {
    removed := [];
    for i := 0 to |before|
      invariant removed == Missing(before[..i], after)
    {
      assert before[..i + 1][..i] == before[..i];
      if Find(after, KeyOf(before[i])).None? {
        removed := removed + [before[i]];
      }
    }
    assert before[..|before|] == before;
  }

  class CatalogPublisher {
    var last: Option<Catalog>
    var initialGroup: nat
    var nextGroup: nat
    var nextObject: nat
    var ended: bool
    var maxDeltas: nat
    var deltas: nat

    ghost function Model(): Publisher
      reads this
    {
      Publisher(last, initialGroup, nextGroup, nextObject, ended, maxDeltas, deltas)
    }

    ghost predicate Valid()
      reads this
    {
      Model().Started()
    }

    constructor ()
      ensures Valid() && Model() == Fresh
    {
      last, initialGroup, nextGroup, nextObject, ended, maxDeltas, deltas := None, 0, 0, 0, false, 8, 0;
    }

    /** The counters move only once the text exists. */
    method Emit(c: Catalog) returns (outcome: Outcome)
      modifies `nextGroup, `nextObject, `deltas
      ensures var (next, result) := EmitIndependent(old(Model()), c, c, true);
        outcome == result && Model() == next.(last := old(last), ended := old(ended))
    {
      if !Serializable(c) {
        return Threw;
      }
      if nextGroup > MaxGroupId {
        return Threw;
      }
      outcome := Emitted([CatalogObject(nextGroup, 0, Serialized(c))]);
      nextGroup := nextGroup + 1;
      nextObject := 1;
      deltas := 0;
    }

    method Republish(c: Catalog) returns (outcome: Outcome)
      modifies this
      ensures (Model(), outcome) == EmitIndependent(old(Model()), c, c, old(ended))
    {
      outcome := Emit(c);
      if outcome.Emitted? {
        last := Some(c);
      }
    }

    method PublishCatalog(desired: Catalog) returns (outcome: Outcome)
      requires Valid()
      modifies this
      ensures Valid() && (Model(), outcome) == Step(old(Model()), Call.Publish(desired))
    {
      hide Serializable, Serialized, ValidCatalog, Keyed, SomeChanged, Missing;
      if ended {
        return Threw;
      }
      if last.None? {
        outcome := Republish(desired);
        return;
      }
      if CatalogsEqual(last.value, desired) {
        return Emitted([]);
      }
      if !ValidCatalog(desired) {
        return Threw;
      }
      var before := BuildKeyed(last.value.tracks);
      var after := BuildKeyed(desired.tracks);
      var changed, added := FindAdded(after, before);
      if changed {
        outcome := Republish(desired);
        return;
      }
      var removed := FindRemoved(before, after);
      if (added == [] && removed == []) || RootChanged(last.value, desired) || deltas >= maxDeltas {
        outcome := Republish(desired);
        return;
      }
      var delta := DeltaOf(added, removed);
      if !Serializable(delta) {
        return Threw;
      }
      outcome := Emitted([CatalogObject(nextGroup - 1, nextObject, Serialized(delta))]);
      nextObject := nextObject + 1;
      last := Some(desired);
      deltas := deltas + 1;
    }

    method ForceIndependent() returns (outcome: Outcome)
      requires Valid()
      modifies this
      ensures Valid() && (Model(), outcome) == Step(old(Model()), Call.ForceIndependent)
    {
      hide Serializable, Serialized;
      if ended {
        return Threw;
      }
      if last.None? {
        return Emitted([]);
      }
      outcome := Emit(last.value);
    }

    method EndBroadcast(mode: EndMode, durations: map<string, nat>) returns (outcome: Outcome)
      requires Valid()
      modifies this
      ensures Valid() && (Model(), outcome) == Step(old(Model()), Call.EndBroadcast(mode, durations))
    {
      hide Serializable, Serialized, FinalCatalog;
      if ended {
        return Threw;
      }
      var final := MakeEndCatalog(if last.Some? then last.value else EmptyCatalog, mode, durations);
      outcome := Emit(final);
      if outcome.Emitted? {
        last, ended := Some(final), true;
      }
    }

    method Reset()
      requires Valid()
      modifies this
      ensures Valid() && (Model(), Emitted([])) == Step(old(Model()), Call.Reset)
    {
      last := None;
      nextGroup := initialGroup;
      nextObject := 0;
      ended := false;
      deltas := 0;
    }

    method SetInitialGroup(group: nat)
      requires Valid()
      modifies this
      ensures Valid() && (Model(), Emitted([])) == Step(old(Model()), Call.SetInitialGroup(group))
    {
      initialGroup := group;
      if last.None? {
        nextGroup := group;
      }
    }

    method SetMaxDeltas(count: nat)
      requires Valid()
      modifies this
      ensures Valid() && (Model(), Emitted([])) == Step(old(Model()), Call.SetMaxDeltas(count))
    {
      maxDeltas := count;
    }
  }
}
