/**
 * The MSF catalog as a value: tracks, validation, what a serialized document
 * says, and the ordered track maps the differ compares. A document stands for
 * the JSON text; serialization either yields one or throws.
 */
module Catalog {
  import opened Bytes

  datatype Buffers = Buffers(target: Option<nat>, least: Option<nat>, most: Option<nat>)

  /** The track attributes no rule inspects. */
  datatype Shape = Shape(title: Option<string>, renderGroup: Option<nat>, altGroup: Option<nat>, timescale: Option<nat>,
                         avgBitrate: Option<nat>, maxGopDuration: Option<nat>, maxGroupDuration: Option<nat>,
                         width: Option<nat>, height: Option<nat>, maxGrpSap: Option<nat>, maxObjSap: Option<nat>)

  datatype Track = Track(name: string, space: Option<string>, packaging: string, locmafVersion: Option<string>,
                         role: Option<string>, isLive: bool, targetLatency: Option<nat>, buffers: Option<Buffers>,
                         initRef: Option<string>, depends: seq<string>, codec: Option<string>,
                         mimeType: Option<string>, bitrate: Option<nat>, samplerate: Option<nat>,
                         channelConfig: Option<string>, lang: Option<string>, trackDuration: Option<nat>,
                         eventType: Option<string>, customFields: map<string, string>, protectionRefs: seq<string>,
                         shape: Shape)

  datatype InitData = InitData(id: string, kind: string, data: string)

  datatype UrlEntry = UrlEntry(url: string, kind: Option<string>)

  datatype Protection = Protection(refId: string, defaultKids: seq<string>, scheme: string, systemId: string,
                                   laUrl: Option<UrlEntry>, certUrl: Option<UrlEntry>, pssh: Option<string>,
                                   robustness: Option<string>)

  datatype DeltaOp = DeltaOp(op: string, tracks: seq<Track>)

  datatype Catalog = Catalog(version: string, isComplete: Option<bool>, protections: seq<Protection>,
                             tracks: seq<Track>, publishTracks: seq<Track>, initData: seq<InitData>,
                             deltaUpdate: seq<DeltaOp>)

  const EmptyCatalog := Catalog("1", None, [], [], [], [], [])

  // ---- validation

  /** A percent sign only as a %name% reference; outside one, and inside one. */
  predicate NoStrayPercent(s: string)
    decreases |s|
  {
    s == "" || if s[0] == '%' then EndsName(s[1..], true) else NoStrayPercent(s[1..])
  }

  predicate EndsName(s: string, empty: bool)
    decreases |s|
  {
    s != "" &&
    if s[0] == '%' then !empty && NoStrayPercent(s[1..])
    else ('a' <= s[0] <= 'z' || 'A' <= s[0] <= 'Z' || '0' <= s[0] <= '9' || s[0] == '-' || s[0] == '_') &&
         EndsName(s[1..], false)
  }

  predicate NoStrayPercentIn(s: Option<string>) {
    s.Some? ==> NoStrayPercent(s.value)
  }

  predicate IsUuid(s: string) {
    |s| == 36 && forall i | 0 <= i < 36 :: UuidAt(s, i)
  }

  predicate UuidAt(s: string, i: nat)
    requires i < |s|
  {
    if i == 8 || i == 13 || i == 18 || i == 23 then s[i] == '-'
    else '0' <= s[i] <= '9' || 'a' <= s[i] <= 'f' || 'A' <= s[i] <= 'F'
  }

  const SpecFieldNames: seq<string> := [
    "name", "namespace", "packaging", "locmafVersion", "eventType", "role", "isLive", "targetLatency", "buffers",
    "label", "renderGroup", "altGroup", "initRef", "depends", "codec", "mimeType", "framerate", "timescale",
    "bitrate", "avgBitrate", "maxGopDuration", "maxGroupDuration", "width", "height", "samplerate", "channelConfig",
    "lang", "trackDuration", "maxGrpSapStartingType", "maxObjSapStartingType", "temporalId", "spatialId",
    "displayWidth", "displayHeight", "parentName", "parentNamespace", "template", "authInfo", "accessibility",
    "encryptionScheme", "cipherSuite", "keyId", "trackBaseKey", "connectionUri", "token", "contentProtectionRefIDs"]

  predicate ValidAttributes(t: Track) {
    t.name != "" && t.packaging != "" &&
    (if t.packaging == "locmaf" then t.locmafVersion == Some("0.3") else t.locmafVersion.None?) &&
    (t.role == Some("video") || t.role == Some("audio") ==> t.bitrate.Some?) &&
    (t.packaging == "eventtimeline" <==> t.eventType.Some?) &&
    (t.role == Some("audio") ==> t.samplerate.Some? && t.channelConfig.Some?) &&
    !(t.targetLatency.Some? && t.buffers.Some?) &&
    (forall key | key in t.customFields :: key !in SpecFieldNames && t.customFields[key] != "")
  }

  predicate ValidStrings(t: Track) {
    NoStrayPercent(t.name) && NoStrayPercent(t.packaging) && NoStrayPercentIn(t.space) && NoStrayPercentIn(t.role) &&
    NoStrayPercentIn(t.shape.title) && NoStrayPercentIn(t.initRef) && NoStrayPercentIn(t.codec) &&
    NoStrayPercentIn(t.mimeType) && NoStrayPercentIn(t.channelConfig) && NoStrayPercentIn(t.lang) &&
    NoStrayPercentIn(t.eventType) && (forall d | d in t.depends :: NoStrayPercent(d)) &&
    (forall r | r in t.protectionRefs :: NoStrayPercent(r))
  }

  /** `validate_track`. */
  predicate ValidTrack(t: Track) {
    ValidAttributes(t) && !(t.isLive && t.trackDuration.Some?) && ValidStrings(t)
  }

  predicate ValidTracks(ts: seq<Track>) {
    forall t | t in ts :: ValidTrack(t)
  }

  /** The identity of a track: its namespace, empty when absent, and its name. */
  datatype Key = Key(space: string, name: string)

  function KeyOf(t: Track): Key {
    Key(if t.space.Some? then t.space.value else "", t.name)
  }

  predicate UniqueKeys(ts: seq<Track>) {
    forall i, j | 0 <= i < j < |ts| :: KeyOf(ts[i]) != KeyOf(ts[j])
  }

  predicate ValidInitData(init: seq<InitData>) {
    (forall i, j | 0 <= i < j < |init| :: init[i].id != init[j].id) &&
    (forall e | e in init :: NoStrayPercent(e.id) && NoStrayPercent(e.kind))
  }

  predicate ValidProtection(p: Protection) {
    NoStrayPercent(p.refId) && (p.scheme == "cenc" || p.scheme == "cbcs") && p.defaultKids != [] &&
    (forall k | k in p.defaultKids :: IsUuid(k)) && IsUuid(p.systemId) && NoStrayPercentIn(p.robustness) &&
    (p.laUrl.Some? ==> NoStrayPercentIn(p.laUrl.value.kind)) &&
    (p.certUrl.Some? ==> NoStrayPercentIn(p.certUrl.value.kind))
  }

  predicate ValidProtections(ps: seq<Protection>) {
    (forall i, j | 0 <= i < j < |ps| :: ps[i].refId != ps[j].refId) && (forall p | p in ps :: ValidProtection(p))
  }

  function InitIds(init: seq<InitData>): set<string> {
    set e | e in init :: e.id
  }

  function ProtectionIds(ps: seq<Protection>): set<string> {
    set p | p in ps :: p.refId
  }

  /** Every reference a track makes resolves in the root lists. */
  predicate Resolves(t: Track, c: Catalog) {
    (t.initRef.Some? ==> t.initRef.value in InitIds(c.initData)) &&
    (forall r | r in t.protectionRefs :: r in ProtectionIds(c.protections))
  }

  predicate ValidDelta(ops: seq<DeltaOp>) {
    forall o | o in ops ::
      (o.op == "add" || o.op == "remove") && o.tracks != [] &&
      (o.op == "remove" ==> forall t | t in o.tracks :: NoStrayPercent(t.name) && NoStrayPercentIn(t.space))
  }

  predicate ValidRoot(c: Catalog) {
    NoStrayPercent(c.version) && ValidInitData(c.initData) && ValidProtections(c.protections) &&
    UniqueKeys(c.tracks + c.publishTracks) && (forall t | t in c.tracks + c.publishTracks :: Resolves(t, c))
  }

  /** `validate_catalog`. */
  predicate ValidCatalog(c: Catalog) {
    if c.deltaUpdate != [] then c.tracks == [] && ValidDelta(c.deltaUpdate) else ValidRoot(c)
  }

  // ---- documents

  datatype Op = Add(tracks: seq<Track>) | Remove(names: seq<(string, Option<string>)>)

  datatype Document =
    | Independent(version: string, complete: bool, protections: seq<Protection>, tracks: seq<Track>,
                  publishTracks: seq<Track>, initData: seq<InitData>)
    | Delta(complete: bool, ops: seq<Op>)

  /** `serialize_catalog` succeeds: the catalog is valid, and so is each track written in full. */
  predicate Serializable(c: Catalog) {
    ValidCatalog(c) &&
    if c.deltaUpdate != [] then forall o | o in c.deltaUpdate && o.op != "remove" :: ValidTracks(o.tracks)
    else ValidTracks(c.tracks) && ValidTracks(c.publishTracks)
  }

  function Names(ts: seq<Track>): seq<(string, Option<string>)> {
    seq(|ts|, i requires 0 <= i < |ts| => (ts[i].name, ts[i].space))
  }

  /** A removal is narrowed to the names. */
  function WriteOp(o: DeltaOp): Op {
    if o.op == "remove" then Remove(Names(o.tracks)) else Add(o.tracks)
  }

  /** What the serialized text says: a delta carries neither the root lists nor the version. */
  function Serialized(c: Catalog): Document {
    if c.deltaUpdate != [] then
      Delta(c.isComplete == Some(true), seq(|c.deltaUpdate|, i requires 0 <= i < |c.deltaUpdate| => WriteOp(c.deltaUpdate[i])))
    else
      Independent(c.version, c.isComplete == Some(true), c.protections, c.tracks, c.publishTracks, c.initData)
  }

  // ---- ordered track maps

  predicate StringLess(a: string, b: string)
    decreases |a|
  {
    b != "" && (a == "" || a[0] < b[0] || (a[0] == b[0] && StringLess(a[1..], b[1..])))
  }

  predicate Before(a: Key, b: Key) {
    StringLess(a.space, b.space) || (a.space == b.space && StringLess(a.name, b.name))
  }

  lemma {:induction false} StringsOrdered(a: string, b: string)
    ensures !StringLess(a, a)
    ensures StringLess(a, b) || a == b || StringLess(b, a)
    decreases |a| + |b|
  {
    if a != "" {
      StringsOrdered(a[1..], []);
    }
    if a != "" && b != "" && a[0] == b[0] {
      StringsOrdered(a[1..], b[1..]);
      if a[1..] == b[1..] {
        assert a == [a[0]] + a[1..] && b == [b[0]] + b[1..];
      }
    }
  }

  lemma {:induction false} StringsTransitive(a: string, b: string, c: string)
    requires StringLess(a, b) && StringLess(b, c)
    ensures StringLess(a, c)
    decreases |a|
  {
    if a != "" && a[0] == b[0] == c[0] {
      StringsTransitive(a[1..], b[1..], c[1..]);
    }
  }

  lemma KeysOrdered(a: Key, b: Key)
    ensures !Before(a, a)
    ensures Before(a, b) || a == b || Before(b, a)
  {
    StringsOrdered(a.space, b.space);
    StringsOrdered(a.name, b.name);
  }

  lemma KeysTransitive(a: Key, b: Key, c: Key)
    requires Before(a, b) && Before(b, c)
    ensures Before(a, c)
  {
    if StringLess(a.space, b.space) && StringLess(b.space, c.space) {
      StringsTransitive(a.space, b.space, c.space);
    }
    if StringLess(a.name, b.name) && StringLess(b.name, c.name) {
      StringsTransitive(a.name, b.name, c.name);
    }
  }

  /** An ordered map from key to track, as the list of its tracks in key order. */
  predicate Sorted(m: seq<Track>) {
    forall i, j | 0 <= i < j < |m| :: Before(KeyOf(m[i]), KeyOf(m[j]))
  }

  function Find(m: seq<Track>, k: Key): Option<Track>
    decreases |m|
  {
    if m == [] then None else if KeyOf(m[0]) == k then Some(m[0]) else Find(m[1..], k)
  }

  /** `emplace`: an entry already present stays. */
  function Emplace(m: seq<Track>, t: Track): seq<Track>
    decreases |m|
  {
    if m == [] then [t]
    else if KeyOf(m[0]) == KeyOf(t) then m
    else if Before(KeyOf(t), KeyOf(m[0])) then [t] + m
    else [m[0]] + Emplace(m[1..], t)
  }

  function Keyed(ts: seq<Track>): seq<Track> {
    if ts == [] then [] else Emplace(Keyed(ts[..|ts| - 1]), ts[|ts| - 1])
  }

  lemma {:induction false} EmplaceKeepsSorted(m: seq<Track>, t: Track)
    requires Sorted(m)
    ensures Sorted(Emplace(m, t))
    ensures forall x | x in Emplace(m, t) :: x in m || x == t
    decreases |m|
  {
    if m != [] {
      KeysOrdered(KeyOf(m[0]), KeyOf(t));
      if Before(KeyOf(t), KeyOf(m[0])) {
        forall j | 0 <= j < |m|
          ensures Before(KeyOf(t), KeyOf(m[j]))
        {
          if j > 0 {
            KeysTransitive(KeyOf(t), KeyOf(m[0]), KeyOf(m[j]));
          }
        }
      } else if KeyOf(m[0]) != KeyOf(t) {
        EmplaceKeepsSorted(m[1..], t);
        forall x | x in Emplace(m[1..], t)
          ensures Before(KeyOf(m[0]), KeyOf(x))
        {
        }
      }
    }
  }

  lemma {:induction false} FindSorted(m: seq<Track>, i: nat)
    requires Sorted(m) && i < |m|
    ensures Find(m, KeyOf(m[i])) == Some(m[i])
    decreases |m|
  {
    if i > 0 {
      KeysOrdered(KeyOf(m[0]), KeyOf(m[i]));
      FindSorted(m[1..], i - 1);
    }
  }

  lemma {:induction false} FindIs(m: seq<Track>, k: Key)
    ensures Find(m, k).Some? ==> Find(m, k).value in m && KeyOf(Find(m, k).value) == k
    ensures Find(m, k).None? ==> forall t | t in m :: KeyOf(t) != k
    decreases |m|
  {
    if m != [] {
      FindIs(m[1..], k);
      assert m == [m[0]] + m[1..];
    }
  }

  lemma {:induction false} FindAfterEmplace(m: seq<Track>, t: Track, k: Key)
    requires Sorted(m)
    ensures Find(Emplace(m, t), k) == if k == KeyOf(t) && Find(m, k).None? then Some(t) else Find(m, k)
    decreases |m|
  {
    if m != [] {
      KeysOrdered(KeyOf(m[0]), KeyOf(t));
      if Before(KeyOf(t), KeyOf(m[0])) {
        FindIs(m, KeyOf(t));
        forall x | x in m
          ensures KeyOf(x) != KeyOf(t)
        {
          KeysOrdered(KeyOf(t), KeyOf(t));
          var j :| 0 <= j < |m| && m[j] == x;
          if j > 0 {
            KeysTransitive(KeyOf(t), KeyOf(m[0]), KeyOf(x));
          }
        }
        assert ([t] + m)[1..] == m;
      } else if KeyOf(m[0]) != KeyOf(t) {
        FindAfterEmplace(m[1..], t, k);
        assert ([m[0]] + Emplace(m[1..], t))[1..] == Emplace(m[1..], t);
      }
    }
  }

  lemma {:induction false} KeyedSorted(ts: seq<Track>)
    ensures Sorted(Keyed(ts))
    ensures forall x | x in Keyed(ts) :: x in ts
  {
    if ts != [] {
      KeyedSorted(ts[..|ts| - 1]);
      EmplaceKeepsSorted(Keyed(ts[..|ts| - 1]), ts[|ts| - 1]);
    }
  }

  /** The same map as a value: the first track of each key. */
  function TrackMap(ts: seq<Track>): map<Key, Track> {
    if ts == [] then map[]
    else
      var before, t := TrackMap(ts[..|ts| - 1]), ts[|ts| - 1];
      if KeyOf(t) in before then before else before[KeyOf(t) := t]
  }

  lemma {:induction false} KeyedIsTrackMap(ts: seq<Track>, k: Key)
    ensures Find(Keyed(ts), k) == if k in TrackMap(ts) then Some(TrackMap(ts)[k]) else None
  {
    if ts != [] {
      KeyedIsTrackMap(ts[..|ts| - 1], k);
      KeyedIsTrackMap(ts[..|ts| - 1], KeyOf(ts[|ts| - 1]));
      KeyedSorted(ts[..|ts| - 1]);
      FindAfterEmplace(Keyed(ts[..|ts| - 1]), ts[|ts| - 1], k);
    }
  }

  lemma {:induction false} TrackMapKeys(ts: seq<Track>)
    ensures forall k | k in TrackMap(ts) :: TrackMap(ts)[k] in ts && KeyOf(TrackMap(ts)[k]) == k
    ensures forall t | t in ts :: KeyOf(t) in TrackMap(ts)
    ensures UniqueKeys(ts) ==> forall t | t in ts :: TrackMap(ts)[KeyOf(t)] == t
  {
    if ts != [] {
      TrackMapKeys(ts[..|ts| - 1]);
    }
  }
}
