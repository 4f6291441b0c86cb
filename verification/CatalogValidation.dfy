/**
 * Validating a catalog as the publisher does it, check by check and entry by entry
 * against the sets of what was seen, and what its string checks accept.
 */
module CatalogValidation {
  import opened Bytes
  import opened Catalog

  // ---- percent signs

  predicate NameChar(c: char) {
    'a' <= c <= 'z' || 'A' <= c <= 'Z' || '0' <= c <= '9' || c == '-' || c == '_'
  }

  predicate IsName(s: string) {
    s != "" && forall c | c in s :: NameChar(c)
  }

  /** A character as it is, or a variable between percent signs. */
  datatype Piece = Plain(c: char) | Variable(name: string) {
    predicate Valid() {
      if Plain? then c != '%' else IsName(name)
    }

    function Text(): string {
      if Plain? then [c] else "%" + name + "%"
    }
  }

  predicate AllValid(ps: seq<Piece>) {
    forall i | 0 <= i < |ps| :: ps[i].Valid()
  }

  function Text(ps: seq<Piece>): string {
    if ps == [] then "" else ps[0].Text() + Text(ps[1..])
  }

  function FirstPercent(s: string): (k: nat)
    ensures k <= |s| && (k < |s| ==> s[k] == '%') && forall j | 0 <= j < k :: s[j] != '%'
    decreases |s|
  {
    if s == "" || s[0] == '%' then 0 else 1 + FirstPercent(s[1..])
  }

  /** A variable ends at the next percent sign. */
  lemma {:induction false} EndsExactly(s: string, empty: bool)
    ensures var k := FirstPercent(s);
      EndsName(s, empty) <==>
        k < |s| && (forall j | 0 <= j < k :: NameChar(s[j])) && !(empty && k == 0) && NoStrayPercent(s[k + 1..])
    decreases |s|
  {
    if s != "" && s[0] != '%' {
      EndsExactly(s[1..], false);
      var k := FirstPercent(s);
      assert k < |s| ==> s[1..][k..] == s[k + 1..];
      if forall j | 0 <= j < k - 1 :: NameChar(s[1..][j]) {
        forall j | 1 <= j < k
          ensures NameChar(s[j])
        {
          assert s[j] == s[1..][j - 1];
        }
      }
    }
  }

  lemma NameThenPercent(name: string, rest: string)
    requires IsName(name)
    ensures var s := "%" + name + "%" + rest;
      NoStrayPercent(s) <==> NoStrayPercent(rest)
  {
    var s := name + "%" + rest;
    assert ("%" + name + "%" + rest)[1..] == s;
    EndsExactly(s, true);
    assert forall j | 0 <= j < |name| :: s[j] == name[j] && NameChar(name[j]);
    assert s[|name|] == '%';
    assert FirstPercent(s) == |name|;
    assert s[|name| + 1..] == rest;
  }

  lemma {:induction false} PiecesAccepted(ps: seq<Piece>)
    requires AllValid(ps)
    ensures NoStrayPercent(Text(ps))
  {
    if ps != [] {
      PiecesAccepted(ps[1..]);
      assert ps[0].Valid();
      if ps[0].Variable? {
        NameThenPercent(ps[0].name, Text(ps[1..]));
      } else {
        assert Text(ps)[1..] == Text(ps[1..]);
      }
    }
  }

  lemma {:induction false} AcceptedInPieces(s: string) returns (ps: seq<Piece>)
    requires NoStrayPercent(s)
    ensures AllValid(ps) && Text(ps) == s
    decreases |s|
  {
    ps := [];
    if s != "" {
      var first, rest := Plain(s[0]), s[1..];
      if s[0] == '%' {
        EndsExactly(s[1..], true);
        var k := FirstPercent(s[1..]);
        first, rest := Variable(s[1..][..k]), s[1..][k + 1..];
        assert s[1..] == s[1..][..k] + "%" + rest;
      }
      assert s == first.Text() + rest;
      var more := AcceptedInPieces(rest);
      ps := [first] + more;
      assert ps[1..] == more;
    }
  }

  /** Accepted are exactly the texts of characters other than percent signs and of named variables. */
  lemma PercentsExactly(s: string)
    ensures NoStrayPercent(s) <==> exists ps :: AllValid(ps) && Text(ps) == s
  {
    if NoStrayPercent(s) {
      var ps := AcceptedInPieces(s);
    }
    if ps :| AllValid(ps) && Text(ps) == s {
      PiecesAccepted(ps);
    }
  }

  method FindPercent(s: string, from: nat) returns (k: nat)
    requires from <= |s|
    ensures k == from + FirstPercent(s[from..])
  {
    k := from;
    while k < |s| && s[k] != '%'
      invariant from <= k <= |s| && forall j | from <= j < k :: s[j] != '%'
    {
      k := k + 1;
    }
    var rest := s[from..];
    assert forall j | 0 <= j < k - from :: rest[j] == s[from + j];
    assert k < |s| ==> rest[k - from] == s[k];
  }

  /** From a percent sign on: a name up to the next one, and what is behind that. */
  lemma VariableExactly(value: string, index: nat, closing: nat)
    requires index < |value| && value[index] == '%' && closing == index + 1 + FirstPercent(value[index + 1..])
    ensures NoStrayPercent(value[index..]) <==>
      closing < |value| && IsName(value[index + 1..closing]) && NoStrayPercent(value[closing + 1..])
  {
    hide NameChar;
    var rest := value[index + 1..];
    var k := FirstPercent(rest);
    assert value[index..][0] == '%' && value[index..][1..] == rest;
    EndsExactly(rest, true);
    if closing < |value| {
      var name := value[index + 1..closing];
      assert rest[k + 1..] == value[closing + 1..];
      assert forall j | 0 <= j < k :: rest[j] == name[j];
      assert (forall c | c in name :: NameChar(c)) <==> forall j | 0 <= j < k :: NameChar(name[j]);
    }
  }

  method ValidateName(name: string) returns (ok: bool)
    ensures ok <==> IsName(name)
  {
    hide NameChar;
    if name == "" {
      return false;
    }
    for i := 0 to |name|
      invariant forall j | 0 <= j < i :: NameChar(name[j])
    {
      if !NameChar(name[i]) {
        return false;
      }
    }
    return true;
  }

  method ValidateNoStrayPercent(value: string) returns (ok: bool)
    ensures ok <==> NoStrayPercent(value)
  {
    hide IsName, FirstPercent;
    var index := 0;
    assert value[0..] == value;
    while index < |value|
      invariant index <= |value| && (NoStrayPercent(value) <==> NoStrayPercent(value[index..]))
    {
      if value[index] != '%' {
        assert value[index..][0] == value[index] && value[index..][1..] == value[index + 1..];
        index := index + 1;
        continue;
      }
      var closing := FindPercent(value, index + 1);
      VariableExactly(value, index, closing);
      if closing == |value| {
        return false;
      }
      ok := ValidateName(value[index + 1..closing]);
      if !ok {
        return;
      }
      index := closing + 1;
    }
    return true;
  }

  method ValidateOptional(value: Option<string>) returns (ok: bool)
    ensures ok <==> NoStrayPercentIn(value)
  {
    ok := true;
    if value.Some? {
      ok := ValidateNoStrayPercent(value.value);
    }
  }

  method ValidateAll(values: seq<string>) returns (ok: bool)
    ensures ok <==> forall v | v in values :: NoStrayPercent(v)
  {
    for i := 0 to |values|
      invariant forall j | 0 <= j < i :: NoStrayPercent(values[j])
    {
      var fine := ValidateNoStrayPercent(values[i]);
      if !fine {
        return false;
      }
    }
    return true;
  }

  // ---- identifiers

  predicate IsHex(s: string) {
    forall i | 0 <= i < |s| :: '0' <= s[i] <= '9' || 'a' <= s[i] <= 'f' || 'A' <= s[i] <= 'F'
  }

  /** Five groups of hexadecimal digits with dashes between them. */
  ghost predicate Grouped(s: string, a: string, b: string, c: string, d: string, e: string) {
    |a| == 8 && |b| == 4 && |c| == 4 && |d| == 4 && |e| == 12 && IsHex(a) && IsHex(b) && IsHex(c) && IsHex(d) &&
    IsHex(e) && s == a + "-" + b + "-" + c + "-" + d + "-" + e
  }

  lemma UuidExactly(s: string)
    ensures IsUuid(s) <==> exists a, b, c, d, e :: Grouped(s, a, b, c, d, e)
  {
    if IsUuid(s) {
      UuidGroups(s);
    }
    if a, b, c, d, e :| Grouped(s, a, b, c, d, e) {
      GroupsAreUuid(s, a, b, c, d, e);
    }
  }

  lemma UuidGroups(s: string)
    requires IsUuid(s)
    ensures Grouped(s, s[..8], s[9..13], s[14..18], s[19..23], s[24..])
  {
    hide UuidAt;
    assert UuidAt(s, 8) && UuidAt(s, 13) && UuidAt(s, 18) && UuidAt(s, 23);
    Dashes(s);
    HexIn(s, 0, 8);
    HexIn(s, 9, 13);
    HexIn(s, 14, 18);
    HexIn(s, 19, 23);
    HexIn(s, 24, 36);
    assert s[0..8] == s[..8] && s[24..36] == s[24..];
  }

  lemma Dashes(s: string)
    requires |s| == 36 && UuidAt(s, 8) && UuidAt(s, 13) && UuidAt(s, 18) && UuidAt(s, 23)
    ensures s == s[..8] + "-" + s[9..13] + "-" + s[14..18] + "-" + s[19..23] + "-" + s[24..]
  {
  }

  lemma HexIn(s: string, from: nat, to: nat)
    requires IsUuid(s) && from <= to <= 36
    requires !(from <= 8 < to) && !(from <= 13 < to) && !(from <= 18 < to) && !(from <= 23 < to)
    ensures IsHex(s[from..to])
  {
    forall i | from <= i < to
      ensures '0' <= s[i] <= '9' || 'a' <= s[i] <= 'f' || 'A' <= s[i] <= 'F'
    {
      assert UuidAt(s, i);
    }
  }

  lemma GroupsAreUuid(s: string, a: string, b: string, c: string, d: string, e: string)
    requires Grouped(s, a, b, c, d, e)
    ensures IsUuid(s)
  {
    assert s[..8] == a && s[9..13] == b && s[14..18] == c && s[19..23] == d && s[24..] == e;
    assert s[8] == '-' && s[13] == '-' && s[18] == '-' && s[23] == '-';
    forall i | 0 <= i < 36
      ensures UuidAt(s, i)
    {
      assert i < 8 ==> s[i] == a[i];
      assert 9 <= i < 13 ==> s[i] == b[i - 9];
      assert 14 <= i < 18 ==> s[i] == c[i - 14];
      assert 19 <= i < 23 ==> s[i] == d[i - 19];
      assert 24 <= i ==> s[i] == e[i - 24];
    }
  }

  method IsUuidString(value: string) returns (ok: bool)
    ensures ok <==> IsUuid(value)
  {
    if |value| != 36 {
      return false;
    }
    for i := 0 to |value|
      invariant forall j | 0 <= j < i :: UuidAt(value, j)
    {
      if i == 8 || i == 13 || i == 18 || i == 23 {
        if value[i] != '-' {
          assert !UuidAt(value, i);
          return false;
        }
        continue;
      }
      var c := value[i];
      if !('0' <= c <= '9' || 'a' <= c <= 'f' || 'A' <= c <= 'F') {
        assert !UuidAt(value, i);
        return false;
      }
    }
    return true;
  }

  // ---- one track

  method ValidateCustomFields(fields: map<string, string>) returns (ok: bool)
    ensures ok <==> forall key | key in fields :: key !in SpecFieldNames && fields[key] != ""
  {
    var left := fields.Keys;
    while left != {}
      invariant left <= fields.Keys
      invariant forall key | key in fields && key !in left :: key !in SpecFieldNames && fields[key] != ""
      decreases left
    {
      var key :| key in left;
      if key in SpecFieldNames || fields[key] == "" {
        return false;
      }
      left := left - {key};
    }
    return true;
  }

  method ValidateStrings(t: Track) returns (ok: bool)
    ensures ok <==> ValidStrings(t)
  {
    hide NoStrayPercent;
    ok := ValidateNoStrayPercent(t.name);
    if !ok { return; }
    ok := ValidateNoStrayPercent(t.packaging);
    if !ok { return; }
    var fields := [t.space, t.role, t.shape.title, t.initRef, t.codec, t.mimeType, t.channelConfig, t.lang, t.eventType];
    for i := 0 to |fields|
      invariant forall j | 0 <= j < i :: NoStrayPercentIn(fields[j])
    {
      ok := ValidateOptional(fields[i]);
      if !ok { return; }
    }
    assert NoStrayPercentIn(fields[0]) && NoStrayPercentIn(fields[1]) && NoStrayPercentIn(fields[2]);
    assert NoStrayPercentIn(fields[3]) && NoStrayPercentIn(fields[4]) && NoStrayPercentIn(fields[5]);
    assert NoStrayPercentIn(fields[6]) && NoStrayPercentIn(fields[7]) && NoStrayPercentIn(fields[8]);
    ok := ValidateAll(t.depends);
    if !ok { return; }
    ok := ValidateAll(t.protectionRefs);
  }

  /** `validate_track`; false for an exception. */
  method ValidateTrack(t: Track) returns (ok: bool)
    ensures ok <==> ValidTrack(t)
  {
    hide ValidStrings;
    if t.name == "" || t.packaging == "" {
      return false;
    }
    if t.packaging == "locmaf" {
      if t.locmafVersion != Some("0.3") {
        return false;
      }
    } else if t.locmafVersion.Some? {
      return false;
    }
    if t.role.Some? && (t.role.value == "video" || t.role.value == "audio") && t.bitrate.None? {
      return false;
    }
    if t.packaging == "eventtimeline" && t.eventType.None? {
      return false;
    }
    if t.packaging != "eventtimeline" && t.eventType.Some? {
      return false;
    }
    if t.isLive && t.trackDuration.Some? {
      return false;
    }
    if t.role.Some? && t.role.value == "audio" {
      if t.samplerate.None? || t.channelConfig.None? {
        return false;
      }
    }
    if t.targetLatency.Some? && t.buffers.Some? {
      return false;
    }
    ok := ValidateCustomFields(t.customFields);
    if !ok {
      return;
    }
    ok := ValidateStrings(t);
  }

  // ---- the catalog

  method ValidateRemoved(ts: seq<Track>) returns (ok: bool)
    ensures ok <==> forall t | t in ts :: NoStrayPercent(t.name) && NoStrayPercentIn(t.space)
  {
    for i := 0 to |ts|
      invariant forall j | 0 <= j < i :: NoStrayPercent(ts[j].name) && NoStrayPercentIn(ts[j].space)
    {
      var named := ValidateNoStrayPercent(ts[i].name);
      var spaced := ValidateOptional(ts[i].space);
      if !named || !spaced {
        return false;
      }
    }
    return true;
  }

  method ValidateOps(ops: seq<DeltaOp>) returns (ok: bool)
    ensures ok <==> ValidDelta(ops)
  {
    hide NoStrayPercent;
    for i := 0 to |ops|
      invariant ValidDelta(ops[..i])
    {
      var o := ops[i];
      assert ops[..i + 1] == ops[..i] + [o];
      if o.op != "add" && o.op != "remove" {
        return false;
      }
      if o.tracks == [] {
        return false;
      }
      if o.op == "remove" {
        var fine := ValidateRemoved(o.tracks);
        if !fine {
          return false;
        }
      }
    }
    assert ops[..|ops|] == ops;
    return true;
  }

  /** The ids of the init data, if each is new. */
  method ValidateInit(init: seq<InitData>) returns (ok: bool, ids: set<string>)
    ensures ok <==> ValidInitData(init)
    ensures ok ==> ids == InitIds(init)
  {
    hide NoStrayPercent;
    ids := {};
    for i := 0 to |init|
      invariant ids == InitIds(init[..i]) && ValidInitData(init[..i])
    {
      var e := init[i];
      assert init[..i + 1] == init[..i] + [e];
      if e.id in ids {
        SeenId(init, i);
        return false, ids;
      }
      var id := ValidateNoStrayPercent(e.id);
      var kind := ValidateNoStrayPercent(e.kind);
      if !id || !kind {
        assert e in init;
        return false, ids;
      }
      ids := ids + {e.id};
    }
    assert init[..|init|] == init;
    return true, ids;
  }

  lemma SeenId(init: seq<InitData>, i: nat)
    requires i < |init| && init[i].id in InitIds(init[..i])
    ensures !ValidInitData(init)
  {
    var e :| e in init[..i] && e.id == init[i].id;
    var j :| 0 <= j < i && init[..i][j] == e;
    assert init[j].id == init[i].id;
  }

  method ValidateProtection(p: Protection) returns (ok: bool)
    ensures ok <==> ValidProtection(p)
  {
    hide NoStrayPercent, IsUuid;
    ok := ValidateNoStrayPercent(p.refId);
    if !ok { return; }
    if p.scheme != "cenc" && p.scheme != "cbcs" {
      return false;
    }
    if p.defaultKids == [] {
      return false;
    }
    for i := 0 to |p.defaultKids|
      invariant forall j | 0 <= j < i :: IsUuid(p.defaultKids[j])
    {
      ok := IsUuidString(p.defaultKids[i]);
      if !ok { return; }
    }
    ok := IsUuidString(p.systemId);
    if !ok { return; }
    ok := ValidateOptional(p.robustness);
    if !ok { return; }
    if p.laUrl.Some? {
      ok := ValidateOptional(p.laUrl.value.kind);
      if !ok { return; }
    }
    if p.certUrl.Some? {
      ok := ValidateOptional(p.certUrl.value.kind);
    }
  }

  /** The reference ids of the content protections, if each is new. */
  method ValidateProtections(ps: seq<Protection>) returns (ok: bool, ids: set<string>)
    ensures ok <==> ValidProtections(ps)
    ensures ok ==> ids == ProtectionIds(ps)
  {
    hide ValidProtection;
    ids := {};
    for i := 0 to |ps|
      invariant ids == ProtectionIds(ps[..i]) && ValidProtections(ps[..i])
    {
      assert ps[..i + 1] == ps[..i] + [ps[i]];
      if ps[i].refId in ids {
        SeenRef(ps, i);
        return false, ids;
      }
      var fine := ValidateProtection(ps[i]);
      if !fine {
        assert ps[i] in ps;
        return false, ids;
      }
      ids := ids + {ps[i].refId};
    }
    assert ps[..|ps|] == ps;
    return true, ids;
  }

  lemma SeenRef(ps: seq<Protection>, i: nat)
    requires i < |ps| && ps[i].refId in ProtectionIds(ps[..i])
    ensures !ValidProtections(ps)
  {
    var p :| p in ps[..i] && p.refId == ps[i].refId;
    var j :| 0 <= j < i && ps[..i][j] == p;
    assert ps[j].refId == ps[i].refId;
  }

  function Keys(ts: seq<Track>): set<Key> {
    set t | t in ts :: KeyOf(t)
  }

  /** Tracks behind others: their keys are new and their references resolve. */
  ghost predicate GoodBehind(seen: set<Key>, ts: seq<Track>, c: Catalog) {
    UniqueKeys(ts) && (forall t | t in ts :: KeyOf(t) !in seen && Resolves(t, c))
  }

  /** A loop over the tracks that remembers the keys it has seen. */
  method ValidateTracks(seen: set<Key>, ts: seq<Track>, c: Catalog, initIds: set<string>, protectionIds: set<string>)
    returns (ok: bool, after: set<Key>)
    requires initIds == InitIds(c.initData) && protectionIds == ProtectionIds(c.protections)
    ensures ok <==> GoodBehind(seen, ts, c)
    ensures ok ==> after == seen + Keys(ts)
  {
    after := seen;
    for i := 0 to |ts|
      invariant after == seen + Keys(ts[..i]) && GoodBehind(seen, ts[..i], c)
    {
      var t := ts[i];
      assert ts[..i + 1] == ts[..i] + [t];
      assert t in ts;
      if KeyOf(t) in after {
        SeenKey(seen, ts, i, c);
        return false, after;
      }
      if t.initRef.Some? && t.initRef.value !in initIds {
        return false, after;
      }
      for j := 0 to |t.protectionRefs|
        invariant forall k | 0 <= k < j :: t.protectionRefs[k] in protectionIds
      {
        if t.protectionRefs[j] !in protectionIds {
          assert t.protectionRefs[j] in t.protectionRefs;
          return false, after;
        }
      }
      assert Resolves(t, c);
      after := after + {KeyOf(t)};
    }
    assert ts[..|ts|] == ts;
    return true, after;
  }

  lemma SeenKey(seen: set<Key>, ts: seq<Track>, i: nat, c: Catalog)
    requires i < |ts| && KeyOf(ts[i]) in seen + Keys(ts[..i])
    ensures !GoodBehind(seen, ts, c)
  {
    if KeyOf(ts[i]) !in seen {
      var t :| t in ts[..i] && KeyOf(t) == KeyOf(ts[i]);
      var j :| 0 <= j < i && ts[..i][j] == t;
      assert KeyOf(ts[j]) == KeyOf(ts[i]);
    } else {
      assert ts[i] in ts;
    }
  }

  lemma BothLists(a: seq<Track>, b: seq<Track>, c: Catalog)
    ensures GoodBehind({}, a, c) && GoodBehind(Keys(a), b, c) <==>
      UniqueKeys(a + b) && forall t | t in a + b :: Resolves(t, c)
  {
    hide KeyOf, Resolves;
    var all := a + b;
    if UniqueKeys(all) {
      assert forall i | 0 <= i < |a| :: all[i] == a[i];
      assert forall i | 0 <= i < |b| :: all[|a| + i] == b[i];
      forall t | t in b
        ensures KeyOf(t) !in Keys(a)
      {
        var j :| 0 <= j < |b| && b[j] == t;
        assert all[|a| + j] == t;
      }
    }
  }

  /** `validate_catalog`; false for an exception. */
  method ValidateCatalog(c: Catalog) returns (ok: bool)
    ensures ok <==> ValidCatalog(c)
  {
    hide NoStrayPercent, ValidInitData, ValidProtections, ValidDelta, GoodBehind, UniqueKeys, Resolves, InitIds, ProtectionIds;
    if c.deltaUpdate != [] {
      if c.tracks != [] {
        return false;
      }
      ok := ValidateOps(c.deltaUpdate);
      return;
    }
    ok := ValidateNoStrayPercent(c.version);
    if !ok { return; }
    var initIds, protectionIds, seen;
    ok, initIds := ValidateInit(c.initData);
    if !ok { return; }
    ok, protectionIds := ValidateProtections(c.protections);
    if !ok { return; }
    BothLists(c.tracks, c.publishTracks, c);
    ok, seen := ValidateTracks({}, c.tracks, c, initIds, protectionIds);
    if !ok { return; }
    assert seen == Keys(c.tracks);
    ok, seen := ValidateTracks(seen, c.publishTracks, c, initIds, protectionIds);
  }

  // ---- writing it

  method ValidateEach(ts: seq<Track>) returns (ok: bool)
    ensures ok <==> ValidTracks(ts)
  {
    hide ValidTrack;
    for i := 0 to |ts|
      invariant forall j | 0 <= j < i :: ValidTrack(ts[j])
    {
      ok := ValidateTrack(ts[i]);
      if !ok {
        assert ts[i] in ts;
        return;
      }
    }
    return true;
  }

  /** `serialize_catalog`: the catalog is validated, and so is every track that is written in full; None for an exception. */
  method SerializeCatalog(c: Catalog) returns (r: Option<Document>)
    ensures r == if Serializable(c) then Some(Serialized(c)) else None
  {
    hide ValidCatalog, ValidTracks;
    var ok := ValidateCatalog(c);
    if !ok {
      return None;
    }
    if c.deltaUpdate != [] {
      for i := 0 to |c.deltaUpdate|
        invariant forall j | 0 <= j < i && c.deltaUpdate[j].op != "remove" :: ValidTracks(c.deltaUpdate[j].tracks)
      {
        var o := c.deltaUpdate[i];
        if o.op != "remove" {
          ok := ValidateEach(o.tracks);
          if !ok {
            assert o in c.deltaUpdate;
            return None;
          }
        }
      }
    } else {
      ok := ValidateEach(c.tracks);
      if !ok {
        return None;
      }
      ok := ValidateEach(c.publishTracks);
      if !ok {
        return None;
      }
    }
    return Some(Serialized(c));
  }
}
