/**
 * MSF URLs: building one and parsing it back (section 11.1 of
 * draft-ietf-moq-msf-01). The range lists are read as they come; the parser's
 * last step replaces them by their unions.
 */
module MsfUrl {
  import opened Bytes
  import opened Decimals
  import opened RangeUnion
  import Ns = MsfNamespace

  datatype Connection = AnyConnection | RawQuic | WebTransport

  datatype Url = Url(host: string, port: nat, path: string, pathExplicit: bool, query: string, track: Ns.TrackId,
                     connection: Connection, token: Option<string>, wallclock: seq<TimeRange>,
                     mediatime: seq<TimeRange>, locations: seq<LocationRange>, extra: seq<(string, string)>)

  // ---- splitting

  /** `find`: the first occurrence, or the length. */
  function IndexOf(s: string, c: char): (r: nat)
    ensures r <= |s| && (r < |s| ==> s[r] == c) && forall i | 0 <= i < r :: s[i] != c
    decreases |s|
  {
    if s == "" || s[0] == c then 0 else 1 + IndexOf(s[1..], c)
  }

  lemma IndexOfIs(a: string, c: char, b: string)
    requires c !in a
    ensures IndexOf(a + [c] + b, c) == |a|
    ensures (a + [c] + b)[..|a|] == a && (a + [c] + b)[|a| + 1..] == b
  {
    var s := a + [c] + b;
    assert s[|a|] == c;
    assert forall i | 0 <= i < |a| :: s[i] == a[i] && a[i] in a;
    assert IndexOf(s, c) < |s| ==> s[IndexOf(s, c)] == c;
  }

  lemma IndexOfNone(s: string, c: char)
    requires c !in s
    ensures IndexOf(s, c) == |s|
  {
    assert forall i | 0 <= i < |s| :: s[i] in s;
  }

  // ---- values of parameters

  /** `parse_time_range`. */
  function ParseTimeRange(s: string): Option<TimeRange> {
    var dash := IndexOf(s, '-');
    if dash == |s| then
      var start := ParseU64(s);
      if start.None? then None else Some(TimeRange(start.value, None))
    else
      var tail := s[dash + 1..];
      if '-' in tail then None
      else
        var start, end := ParseU64(s[..dash]), ParseU64(tail);
        if start.None? || end.None? || end.value < start.value then None
        else Some(TimeRange(start.value, Some(end.value)))
  }

  function FormatTimeRange(r: TimeRange): string {
    Decimal(r.start) + if r.end.Some? then "-" + Decimal(r.end.value) else ""
  }

  /** `parse_location`. */
  function ParseLocation(s: string): Option<Location> {
    var dot := IndexOf(s, '.');
    if dot == |s| then
      var group := ParseU64(s);
      if group.None? then None else Some(Location(group.value, None))
    else
      var group, id := ParseU64(s[..dot]), ParseU64(s[dot + 1..]);
      if group.None? || id.None? then None else Some(Location(group.value, Some(id.value)))
  }

  function FormatLocation(l: Location): string {
    Decimal(l.group) + if l.id.Some? then "." + Decimal(l.id.value) else ""
  }

  /** `parse_location_range`. */
  function ParseLocationRange(s: string): Option<LocationRange> {
    var dash := IndexOf(s, '-');
    if dash == |s| then
      var start := ParseLocation(s);
      if start.None? then None else Some(LocationRange(start.value, None))
    else
      var tail := s[dash + 1..];
      if '-' in tail then None
      else
        var start, end := ParseLocation(s[..dash]), ParseLocation(tail);
        if start.None? || end.None? || EndKey(end) < StartKey(start.value) then None
        else Some(LocationRange(start.value, end))
  }

  function FormatLocationRange(r: LocationRange): string {
    FormatLocation(r.start) + if r.end.Some? then "-" + FormatLocation(r.end.value) else ""
  }

  ghost predicate ValidTime(r: TimeRange) {
    r.start <= MaxU64 && (r.end.Some? ==> r.start <= r.end.value <= MaxU64)
  }

  ghost predicate ValidLocation(l: Location) {
    l.group <= MaxU64 && (l.id.Some? ==> l.id.value <= MaxU64)
  }

  ghost predicate ValidRange(r: LocationRange) {
    ValidLocation(r.start) && (r.end.Some? ==> ValidLocation(r.end.value) && StartKey(r.start) <= EndKey(r.end))
  }

  lemma PlainDecimal(n: nat)
    ensures '-' !in Decimal(n) && '.' !in Decimal(n) && '&' !in Decimal(n) && '=' !in Decimal(n)
  {
    DecimalIsDigits(n);
  }

  lemma TimeRoundTrip(r: TimeRange)
    requires ValidTime(r)
    ensures ParseTimeRange(FormatTimeRange(r)) == Some(r) && '&' !in FormatTimeRange(r)
  {
    hide Decimal, ParseU64;
    PlainDecimal(r.start);
    DecimalRoundTrip(r.start);
    var a := Decimal(r.start);
    if r.end.Some? {
      var b := Decimal(r.end.value);
      PlainDecimal(r.end.value);
      DecimalRoundTrip(r.end.value);
      assert FormatTimeRange(r) == a + ['-'] + b;
      IndexOfIs(a, '-', b);
    } else {
      assert a + "" == a;
      IndexOfNone(a, '-');
    }
  }

  lemma LocationRoundTrip(l: Location)
    requires ValidLocation(l)
    ensures ParseLocation(FormatLocation(l)) == Some(l) && '&' !in FormatLocation(l) && '-' !in FormatLocation(l)
  {
    hide Decimal, ParseU64;
    PlainDecimal(l.group);
    DecimalRoundTrip(l.group);
    var a := Decimal(l.group);
    if l.id.Some? {
      var b := Decimal(l.id.value);
      PlainDecimal(l.id.value);
      DecimalRoundTrip(l.id.value);
      assert FormatLocation(l) == a + ['.'] + b;
      IndexOfIs(a, '.', b);
    } else {
      assert a + "" == a;
      IndexOfNone(a, '.');
    }
  }

  lemma RangeRoundTrip(r: LocationRange)
    requires ValidRange(r)
    ensures ParseLocationRange(FormatLocationRange(r)) == Some(r) && '&' !in FormatLocationRange(r)
  {
    hide FormatLocation, ParseLocation, StartKey;
    LocationRoundTrip(r.start);
    var a := FormatLocation(r.start);
    if r.end.Some? {
      var b := FormatLocation(r.end.value);
      LocationRoundTrip(r.end.value);
      assert FormatLocationRange(r) == a + ['-'] + b;
      IndexOfIs(a, '-', b);
    } else {
      assert a + "" == a;
      IndexOfNone(a, '-');
    }
  }

  // ---- fragment parameters

  predicate Reserved(name: string) {
    name == "connection" || name == "c4m" || name == "wallclock-range" || name == "mediatime-range" ||
    name == "location-range"
  }

  /** One parameter; None for an exception. */
  function ParseParameter(u: Url, p: string): Option<Url> {
    var equals := IndexOf(p, '=');
    if equals == |p| || equals == 0 then None
    else ParseNamed(u, p[..equals], p[equals + 1..])
  }

  function ParseNamed(u: Url, name: string, value: string): Option<Url> {
    if name == "connection" then
      if u.connection != AnyConnection then None
      else if value == "q" then Some(u.(connection := RawQuic))
      else if value == "wt" then Some(u.(connection := WebTransport))
      else None
    else if name == "c4m" then if u.token.Some? then None else Some(u.(token := Some(value)))
    else if name == "wallclock-range" then
      var r := ParseTimeRange(value);
      if r.None? then None else Some(u.(wallclock := u.wallclock + [r.value]))
    else if name == "mediatime-range" then
      var r := ParseTimeRange(value);
      if r.None? then None else Some(u.(mediatime := u.mediatime + [r.value]))
    else if name == "location-range" then
      var r := ParseLocationRange(value);
      if r.None? then None else Some(u.(locations := u.locations + [r.value]))
    else Some(u.(extra := u.extra + [(name, value)]))
  }

  /** The parameter list, split at ampersands; an empty segment is an error. */
  function ParseParameters(u: Url, s: string): Option<Url>
    decreases |s|
  {
    var amp := IndexOf(s, '&');
    if amp == 0 then None
    else
      var next := ParseParameter(u, s[..amp]);
      if next.None? || amp == |s| then next else ParseParameters(next.value, s[amp + 1..])
  }

  /** The fragment after the prefix: the track, then any parameters. */
  function ParseFragment(u: Url, s: string): Option<Url> {
    var amp := IndexOf(s, '&');
    var track := Ns.Decode(s[..amp]);
    if track.None? then None
    else if amp == |s| then Some(u.(track := track.value))
    else ParseParameters(u.(track := track.value), s[amp + 1..])
  }

  // ---- the whole URL

  const Scheme := "moqt://"

  function Lower(c: char): char {
    if 'A' <= c <= 'Z' then 'a' + (c - 'A') else c
  }

  predicate HasScheme(s: string) {
    |s| >= 7 && forall i | 0 <= i < 7 :: Lower(s[i]) == Scheme[i]
  }

  /** `parse_port`. */
  function ParsePort(s: string): Option<nat> {
    var v := ParseU64(s);
    if v.None? || v.value > 65535 || v.value == 0 then None else v
  }

  const Blank := Url("", 443, "/", false, "", Ns.TrackId([], ""), AnyConnection, None, [], [], [], [])

  function ParseHostPort(authority: string): Option<(string, nat)> {
    var colon := IndexOf(authority, ':');
    if authority == "" || colon == 0 then None
    else if colon == |authority| then Some((authority, 443))
    else
      var port := ParsePort(authority[colon + 1..]);
      if port.None? then None else Some((authority[..colon], port.value))
  }

  function SplitQuery(s: string): (string, string) {
    var question := IndexOf(s, '?');
    (s[..question], if question == |s| then "" else s[question + 1..])
  }

  /** The authority, the path, and whether there was one. */
  function SplitPath(location: string): (string, string, bool) {
    var slash := IndexOf(location, '/');
    (location[..slash], if slash == |location| then "/" else location[slash..], slash < |location|)
  }

  /** Everything between the scheme and the fragment. */
  function ParseAuthority(s: string): Option<Url> {
    var (location, query) := SplitQuery(s);
    var (authority, path, pathExplicit) := SplitPath(location);
    var hostPort := ParseHostPort(authority);
    if hostPort.None? then None
    else
      Some(Blank.(host := hostPort.value.0, port := hostPort.value.1, path := path, pathExplicit := pathExplicit,
                  query := query))
  }

  /** `parse_msf_url` before the unions. */
  function ParseRaw(text: string): Option<Url> {
    if !HasScheme(text) then None
    else
      var rest := text[7..];
      var hash := IndexOf(rest, '#');
      if hash == |rest| then None
      else
        var u, fragment := ParseAuthority(rest[..hash]), rest[hash + 1..];
        if u.None? || |fragment| < 4 || fragment[..4] != "msf:" then None
        else ParseFragment(u.value, fragment[4..])
  }

  function TimeParameters(name: string, rs: seq<TimeRange>): seq<string> {
    seq(|rs|, i requires 0 <= i < |rs| => name + "=" + FormatTimeRange(rs[i]))
  }

  function LocationParameters(rs: seq<LocationRange>): seq<string> {
    seq(|rs|, i requires 0 <= i < |rs| => "location-range=" + FormatLocationRange(rs[i]))
  }

  function ExtraParameters(extra: seq<(string, string)>): seq<string> {
    seq(|extra|, i requires 0 <= i < |extra| => extra[i].0 + "=" + extra[i].1)
  }

  function ConnectionParameters(c: Connection): seq<string> {
    match c
    case AnyConnection => []
    case RawQuic => ["connection=q"]
    case WebTransport => ["connection=wt"]
  }

  /** The parameters in the order they are built. */
  function Parameters(u: Url): seq<string> {
    ConnectionParameters(u.connection) + TimeParameters("wallclock-range", u.wallclock) +
    TimeParameters("mediatime-range", u.mediatime) + LocationParameters(u.locations) + ExtraParameters(u.extra) +
    if u.token.Some? then ["c4m=" + u.token.value] else []
  }

  function WithAmpersands(ps: seq<string>): string
    decreases |ps|
  {
    if ps == [] then "" else "&" + ps[0] + WithAmpersands(ps[1..])
  }

  function AuthorityText(u: Url): string {
    u.host + (if u.port != 443 then ":" + Decimal(u.port) else "") + (if u.pathExplicit then u.path else "") +
    if u.query != "" then "?" + u.query else ""
  }

  /** `build_msf_url`, None for an exception. */
  function Build(u: Url): Option<string>
    requires Ns.OfBytes(u.track)
  {
    if u.host == "" || '#' in u.host || (u.pathExplicit && '#' in u.path) then None
    else
      var track := Ns.Encode(u.track);
      if track.None? then None
      else Some(Scheme + AuthorityText(u) + "#msf:" + track.value + WithAmpersands(Parameters(u)))
  }

  // ---- round trip

  /** No delimiter in the host, path and query where the parser would take it for one. */
  ghost predicate AuthorityIsPlain(u: Url) {
    u.host != "" && '#' !in u.host && '?' !in u.host && '/' !in u.host && ':' !in u.host && 1 <= u.port <= 65535 &&
    (if u.pathExplicit then u.path != "" && u.path[0] == '/' && '#' !in u.path && '?' !in u.path else u.path == "/") &&
    '#' !in u.query
  }

  ghost predicate RangesAreValid(u: Url) {
    (forall r | r in u.wallclock :: ValidTime(r)) && (forall r | r in u.mediatime :: ValidTime(r)) &&
    forall r | r in u.locations :: ValidRange(r)
  }

  /** Ranges in order and in 64 bits, and no delimiter or reserved name in the token and the extra parameters. */
  ghost predicate FieldsArePlain(u: Url) {
    RangesAreValid(u) && (u.token.Some? ==> '&' !in u.token.value) &&
    forall e | e in u.extra :: e.0 != "" && '&' !in e.0 && '=' !in e.0 && !Reserved(e.0) && '&' !in e.1
  }

  ghost predicate WellFormed(u: Url) {
    AuthorityIsPlain(u) && Ns.OfBytes(u.track) && Ns.Encodable(u.track) && FieldsArePlain(u)
  }

  function HostPort(u: Url): string {
    u.host + if u.port != 443 then ":" + Decimal(u.port) else ""
  }

  function LocationText(u: Url): string {
    HostPort(u) + if u.pathExplicit then u.path else ""
  }

  lemma HostPortIsPlain(u: Url)
    requires WellFormed(u)
    ensures var a := HostPort(u); a != "" && '?' !in a && '/' !in a && '#' !in a
  {
    hide Decimal;
    DecimalIsDigits(u.port);
  }

  lemma HostPortSplit(u: Url)
    requires WellFormed(u)
    ensures ParseHostPort(HostPort(u)) == Some((u.host, u.port))
  {
    hide Decimal, ParseU64;
    var d := Decimal(u.port);
    if u.port != 443 {
      DecimalRoundTrip(u.port);
      assert u.host + (":" + d) == u.host + [':'] + d;
      IndexOfIs(u.host, ':', d);
    } else {
      assert u.host + "" == u.host;
      IndexOfNone(u.host, ':');
    }
  }

  lemma LocationIsPlain(u: Url)
    requires WellFormed(u)
    ensures '?' !in LocationText(u) && '#' !in LocationText(u) && '#' !in AuthorityText(u)
    ensures AuthorityText(u) == LocationText(u) + if u.query != "" then "?" + u.query else ""
  {
    hide Decimal;
    HostPortIsPlain(u);
  }

  lemma AuthorityRoundTrip(u: Url)
    requires WellFormed(u)
    ensures ParseAuthority(AuthorityText(u)) ==
      Some(Blank.(host := u.host, port := u.port, path := u.path, pathExplicit := u.pathExplicit, query := u.query))
    ensures '#' !in AuthorityText(u)
  {
    hide ParseHostPort, WellFormed, AuthorityText, HostPort, SplitQuery, SplitPath;
    HostPortIsPlain(u);
    HostPortSplit(u);
    LocationIsPlain(u);
    QuerySplit(LocationText(u), u.query);
    PathSplit(HostPort(u), u);
  }

  lemma QuerySplit(location: string, query: string)
    requires '?' !in location
    ensures SplitQuery(location + if query != "" then "?" + query else "") == (location, query)
  {
    if query != "" {
      assert location + ("?" + query) == location + ['?'] + query;
      IndexOfIs(location, '?', query);
    } else {
      assert location + "" == location;
      IndexOfNone(location, '?');
    }
  }

  lemma PathSplit(a: string, u: Url)
    requires '/' !in a && WellFormed(u)
    ensures SplitPath(a + if u.pathExplicit then u.path else "") == (a, u.path, u.pathExplicit)
  {
    if u.pathExplicit {
      assert a + u.path == a + ['/'] + u.path[1..];
      IndexOfIs(a, '/', u.path[1..]);
      assert (a + u.path)[|a|..] == u.path;
    } else {
      assert a + "" == a;
      IndexOfNone(a, '/');
    }
  }

  /** A parameter of the list: not empty, no ampersand. */
  ghost predicate PlainParameters(ps: seq<string>) {
    forall p | p in ps :: p != "" && '&' !in p
  }

  function ParseAll(u: Url, ps: seq<string>): Option<Url>
    decreases |ps|
  {
    if ps == [] then Some(u)
    else
      var next := ParseParameter(u, ps[0]);
      if next.None? then None else ParseAll(next.value, ps[1..])
  }

  /** Splitting at ampersands undoes joining with them. */
  lemma {:induction false} ParametersSplit(u: Url, ps: seq<string>)
    requires ps != [] && PlainParameters(ps)
    ensures WithAmpersands(ps) != "" && ParseParameters(u, WithAmpersands(ps)[1..]) == ParseAll(u, ps)
    decreases |ps|
  {
    hide ParseParameter, ParseParameters, IndexOf, WithAmpersands;
    var rest := WithAmpersands(ps[1..]);
    assert ps[0] in ps;
    AmpersandsFirst(ps);
    LastParameter(u, ps[0]);
    if |ps| == 1 {
      assert ps[1..] == [];
    } else {
      AmpersandsFirst(ps[1..]);
      FirstParameter(u, ps[0], rest[1..]);
      var next := ParseParameter(u, ps[0]);
      if next.Some? {
        assert forall p | p in ps[1..] :: p in ps;
        ParametersSplit(next.value, ps[1..]);
      }
    }
  }

  lemma AmpersandsFirst(ps: seq<string>)
    requires ps != []
    ensures var rest := WithAmpersands(ps[1..]);
      WithAmpersands(ps) != "" && WithAmpersands(ps)[1..] == ps[0] + rest && (|ps| == 1 ==> ps[0] + rest == ps[0]) &&
      (|ps| > 1 ==> rest != "" && ps[0] + rest == ps[0] + ['&'] + rest[1..])
  {
    hide WithAmpersands;
    var rest := WithAmpersands(ps[1..]);
    AmpersandsStep(ps);
    JoinFront(ps[0], rest);
    if |ps| == 1 {
      assert ps[1..] == [];
      AmpersandsNone();
    } else {
      AmpersandsStep(ps[1..]);
      JoinFront(ps[1], WithAmpersands(ps[1..][1..]));
    }
  }

  lemma AmpersandsStep(ps: seq<string>)
    requires ps != []
    ensures WithAmpersands(ps) == "&" + ps[0] + WithAmpersands(ps[1..])
  {
  }

  lemma AmpersandsNone()
    ensures WithAmpersands([]) == "" && forall p: string :: p + "" == p
  {
  }

  lemma JoinFront(p: string, rest: string)
    ensures var s := "&" + p + rest;
      s != "" && s[1..] == p + rest && forall q: string :: q + s == q + ['&'] + s[1..]
  {
    var s := "&" + p + rest;
    assert s == ['&'] + s[1..];
  }

  lemma FirstParameter(u: Url, p: string, rest: string)
    requires p != "" && '&' !in p
    ensures ParseParameters(u, p + ['&'] + rest) ==
      if ParseParameter(u, p).None? then None else ParseParameters(ParseParameter(u, p).value, rest)
  {
    hide ParseParameter;
    IndexOfIs(p, '&', rest);
  }

  lemma LastParameter(u: Url, p: string)
    requires p != "" && '&' !in p
    ensures ParseParameters(u, p) == ParseParameter(u, p)
  {
    hide ParseParameter;
    IndexOfNone(p, '&');
    assert p[..|p|] == p;
  }

  lemma {:induction false} ParseAllConcat(u: Url, a: seq<string>, b: seq<string>)
    ensures ParseAll(u, a + b) == if ParseAll(u, a).None? then None else ParseAll(ParseAll(u, a).value, b)
    decreases |a|
  {
    hide ParseParameter;
    if a == [] {
      assert a + b == b;
    } else {
      assert (a + b)[1..] == a[1..] + b;
      if ParseParameter(u, a[0]).Some? {
        ParseAllConcat(ParseParameter(u, a[0]).value, a[1..], b);
      }
    }
  }

  lemma NamedParameter(u: Url, name: string, value: string)
    requires '=' !in name && name != ""
    ensures ParseParameter(u, name + "=" + value) == ParseNamed(u, name, value)
  {
    hide ParseNamed;
    IndexOfIs(name, '=', value);
    assert name + "=" + value == name + ['='] + value;
  }

  lemma {:induction false} WallclockRead(u: Url, rs: seq<TimeRange>)
    requires forall r | r in rs :: ValidTime(r)
    ensures ParseAll(u, TimeParameters("wallclock-range", rs)) == Some(u.(wallclock := u.wallclock + rs))
    ensures PlainParameters(TimeParameters("wallclock-range", rs))
    decreases |rs|
  {
    hide ParseTimeRange, FormatTimeRange, ParseParameter;
    if rs == [] {
      assert u.wallclock + rs == u.wallclock;
    } else {
      TimeRoundTrip(rs[0]);
      NamedParameter(u, "wallclock-range", FormatTimeRange(rs[0]));
      assert TimeParameters("wallclock-range", rs)[1..] == TimeParameters("wallclock-range", rs[1..]);
      var next := u.(wallclock := u.wallclock + [rs[0]]);
      WallclockRead(next, rs[1..]);
      assert u.wallclock + [rs[0]] + rs[1..] == u.wallclock + rs;
      FirstPlain(TimeParameters("wallclock-range", rs));
    }
  }

  lemma {:induction false} MediatimeRead(u: Url, rs: seq<TimeRange>)
    requires forall r | r in rs :: ValidTime(r)
    ensures ParseAll(u, TimeParameters("mediatime-range", rs)) == Some(u.(mediatime := u.mediatime + rs))
    ensures PlainParameters(TimeParameters("mediatime-range", rs))
    decreases |rs|
  {
    hide ParseTimeRange, FormatTimeRange, ParseParameter;
    if rs == [] {
      assert u.mediatime + rs == u.mediatime;
    } else {
      TimeRoundTrip(rs[0]);
      NamedParameter(u, "mediatime-range", FormatTimeRange(rs[0]));
      assert TimeParameters("mediatime-range", rs)[1..] == TimeParameters("mediatime-range", rs[1..]);
      var next := u.(mediatime := u.mediatime + [rs[0]]);
      MediatimeRead(next, rs[1..]);
      assert u.mediatime + [rs[0]] + rs[1..] == u.mediatime + rs;
      FirstPlain(TimeParameters("mediatime-range", rs));
    }
  }

  lemma {:induction false} LocationsRead(u: Url, rs: seq<LocationRange>)
    requires forall r | r in rs :: ValidRange(r)
    ensures ParseAll(u, LocationParameters(rs)) == Some(u.(locations := u.locations + rs))
    ensures PlainParameters(LocationParameters(rs))
    decreases |rs|
  {
    hide ParseLocationRange, FormatLocationRange, ParseParameter;
    if rs == [] {
      assert u.locations + rs == u.locations;
    } else {
      RangeRoundTrip(rs[0]);
      NamedParameter(u, "location-range", FormatLocationRange(rs[0]));
      assert "location-range=" + FormatLocationRange(rs[0]) == "location-range" + "=" + FormatLocationRange(rs[0]);
      assert LocationParameters(rs)[1..] == LocationParameters(rs[1..]);
      var next := u.(locations := u.locations + [rs[0]]);
      LocationsRead(next, rs[1..]);
      assert u.locations + [rs[0]] + rs[1..] == u.locations + rs;
      FirstPlain(LocationParameters(rs));
    }
  }

  lemma {:induction false} ExtraRead(u: Url, extra: seq<(string, string)>)
    requires forall e | e in extra :: e.0 != "" && '&' !in e.0 && '=' !in e.0 && !Reserved(e.0) && '&' !in e.1
    ensures ParseAll(u, ExtraParameters(extra)) == Some(u.(extra := u.extra + extra))
    ensures PlainParameters(ExtraParameters(extra))
    decreases |extra|
  {
    hide ParseParameter;
    if extra == [] {
      assert u.extra + extra == u.extra;
    } else {
      assert extra[0] in extra;
      NamedParameter(u, extra[0].0, extra[0].1);
      assert ExtraParameters(extra)[1..] == ExtraParameters(extra[1..]);
      var next := u.(extra := u.extra + [extra[0]]);
      assert (extra[0].0, extra[0].1) == extra[0];
      ExtraRead(next, extra[1..]);
      assert u.extra + [extra[0]] + extra[1..] == u.extra + extra;
      FirstPlain(ExtraParameters(extra));
    }
  }

  lemma FirstPlain(ps: seq<string>)
    requires ps != [] && PlainParameters(ps[1..]) && ps[0] != "" && '&' !in ps[0]
    ensures PlainParameters(ps)
  {
    assert forall p | p in ps :: p == ps[0] || p in ps[1..];
  }

  lemma ConnectionRead(u: Url, c: Connection)
    requires u.connection == AnyConnection
    ensures ParseAll(u, ConnectionParameters(c)) == Some(u.(connection := c)) && PlainParameters(ConnectionParameters(c))
  {
    hide ParseParameter;
    match c {
      case AnyConnection =>
      case RawQuic =>
        NamedParameter(u, "connection", "q");
        assert "connection" + "=" + "q" == "connection=q";
        assert ["connection=q"][1..] == [];
      case WebTransport =>
        NamedParameter(u, "connection", "wt");
        assert "connection" + "=" + "wt" == "connection=wt";
        assert ["connection=wt"][1..] == [];
    }
  }

  lemma TokenRead(u: Url, token: Option<string>)
    requires u.token.None? && (token.Some? ==> '&' !in token.value)
    ensures var ps := if token.Some? then ["c4m=" + token.value] else [];
      ParseAll(u, ps) == Some(u.(token := token)) && PlainParameters(ps)
  {
    hide ParseParameter;
    if token.Some? {
      NamedParameter(u, "c4m", token.value);
      assert "c4m" + "=" + token.value == "c4m=" + token.value;
      assert ["c4m=" + token.value][1..] == [];
    }
  }

  lemma ParametersRead(base: Url, u: Url)
    requires WellFormed(u) && base.connection == AnyConnection && base.token.None?
    requires base.wallclock == [] && base.mediatime == [] && base.locations == [] && base.extra == []
    ensures PlainParameters(Parameters(u))
    ensures ParseAll(base, Parameters(u)) ==
      Some(base.(connection := u.connection, token := u.token, wallclock := u.wallclock, mediatime := u.mediatime,
                 locations := u.locations, extra := u.extra))
  {
    hide ParseAll, ConnectionParameters, TimeParameters, LocationParameters, ExtraParameters;
    ConnectionRead(base, u.connection);
    var c := base.(connection := u.connection);
    WallclockRead(c, u.wallclock);
    var w := c.(wallclock := u.wallclock);
    assert [] + u.wallclock == u.wallclock;
    MediatimeRead(w, u.mediatime);
    var m := w.(mediatime := u.mediatime);
    assert [] + u.mediatime == u.mediatime;
    LocationsRead(m, u.locations);
    var l := m.(locations := u.locations);
    assert [] + u.locations == u.locations;
    ExtraRead(l, u.extra);
    var e := l.(extra := u.extra);
    assert [] + u.extra == u.extra;
    TokenRead(e, u.token);
    var cs, ws, ms := ConnectionParameters(u.connection), TimeParameters("wallclock-range", u.wallclock),
      TimeParameters("mediatime-range", u.mediatime);
    var ls, es := LocationParameters(u.locations), ExtraParameters(u.extra);
    var ts := if u.token.Some? then ["c4m=" + u.token.value] else [];
    ParseAllConcat(base, cs, ws);
    ParseAllConcat(base, cs + ws, ms);
    ParseAllConcat(base, cs + ws + ms, ls);
    ParseAllConcat(base, cs + ws + ms + ls, es);
    ParseAllConcat(base, cs + ws + ms + ls + es, ts);
  }

  lemma BuiltText(u: Url)
    requires WellFormed(u)
    ensures Build(u).Some? && Build(u).value ==
      Scheme + (AuthorityText(u) + ['#'] + ("msf:" + (Ns.Encode(u.track).value + WithAmpersands(Parameters(u)))))
  {
    hide Ns.Encode, Ns.Encodable, Parameters, AuthorityText, WithAmpersands, FieldsArePlain;
    Ns.RoundTrip(u.track);
    var track, ps, authority := Ns.Encode(u.track).value, WithAmpersands(Parameters(u)), AuthorityText(u);
    assert Scheme + authority + "#msf:" + track + ps == Scheme + (authority + ['#'] + ("msf:" + (track + ps)));
  }

  lemma ParsedText(authority: string, rest: string)
    requires '#' !in authority && ParseAuthority(authority).Some?
    ensures ParseRaw(Scheme + (authority + ['#'] + ("msf:" + rest))) == ParseFragment(ParseAuthority(authority).value, rest)
  {
    hide ParseAuthority, ParseFragment, HasScheme, IndexOf;
    TextParts(authority, rest);
  }

  lemma WellFormedRoundTrip(u: Url)
    requires WellFormed(u)
    ensures Build(u).Some? && ParseRaw(Build(u).value) == Some(u)
  {
    hide Ns.Encode, Ns.Decode, Ns.Encodable, Parameters, ParseAuthority, AuthorityText, ParseFragment, WithAmpersands,
      ParseRaw, Build, FieldsArePlain, AuthorityIsPlain;
    Ns.RoundTrip(u.track);
    var track, ps, authority := Ns.Encode(u.track).value, Parameters(u), AuthorityText(u);
    AuthorityRoundTrip(u);
    TrackIsPlain(u.track);
    BuiltText(u);
    ParsedText(authority, track + WithAmpersands(ps));
    var base := ParseAuthority(authority).value;
    ParametersRead(base.(track := u.track), u);
    FragmentRead(base, u, track, ps);
  }

  lemma TextParts(authority: string, rest: string)
    requires '#' !in authority
    ensures var text := Scheme + (authority + ['#'] + ("msf:" + rest));
      HasScheme(text) && IndexOf(text[7..], '#') == |authority| < |text| - 7 && text[7..][..|authority|] == authority &&
      var fragment := text[7..][|authority| + 1..];
      |fragment| >= 4 && fragment[..4] == "msf:" && fragment[4..] == rest
  {
    var fragment := "msf:" + rest;
    var text := Scheme + (authority + ['#'] + fragment);
    assert text[7..] == authority + ['#'] + fragment;
    assert forall i | 0 <= i < 7 :: text[i] == Scheme[i];
    IndexOfIs(authority, '#', fragment);
  }

  lemma TrackIsPlain(id: Ns.TrackId)
    requires Ns.OfBytes(id) && Ns.Encodable(id)
    ensures '&' !in Ns.Encode(id).value
  {
    Ns.JoinedIsPlain(id.namespace);
    Ns.EscapedIsPlain(id.name);
  }

  lemma FragmentRead(base: Url, u: Url, track: string, ps: seq<string>)
    requires Ns.Decode(track) == Some(u.track) && '&' !in track && PlainParameters(ps)
    ensures ParseFragment(base, track + WithAmpersands(ps)) == ParseAll(base.(track := u.track), ps)
  {
    hide Ns.Decode, ParseParameter, ParseParameters;
    if ps == [] {
      assert track + WithAmpersands(ps) == track;
      IndexOfNone(track, '&');
      assert track[..|track|] == track;
    } else {
      var list := WithAmpersands(ps);
      assert list == ['&'] + list[1..];
      assert track + list == track + ['&'] + list[1..];
      IndexOfIs(track, '&', list[1..]);
      ParametersSplit(base.(track := u.track), ps);
    }
  }

  // ---- what a parsed URL holds

  lemma {:induction false} ParsedFits(s: string, value: nat)
    requires value <= MaxU64 && ParseFrom(s, value).Some?
    ensures ParseFrom(s, value).value <= MaxU64
    decreases |s|
  {
    if s != "" {
      ParsedFits(s[1..], value * 10 + (s[0] - '0') as nat);
    }
  }

  lemma NumberFits(s: string)
    ensures ParseU64(s).Some? ==> ParseU64(s).value <= MaxU64
  {
    if ParseU64(s).Some? {
      ParsedFits(s, 0);
    }
  }

  lemma TimeIsValid(s: string)
    ensures ParseTimeRange(s).Some? ==> ValidTime(ParseTimeRange(s).value)
  {
    hide ParseU64;
    var dash := IndexOf(s, '-');
    NumberFits(s);
    NumberFits(s[..dash]);
    if dash < |s| {
      NumberFits(s[dash + 1..]);
    }
  }

  lemma LocationIsValid(s: string)
    ensures ParseLocation(s).Some? ==> ValidLocation(ParseLocation(s).value)
  {
    hide ParseU64;
    var dot := IndexOf(s, '.');
    NumberFits(s);
    NumberFits(s[..dot]);
    if dot < |s| {
      NumberFits(s[dot + 1..]);
    }
  }

  lemma RangeIsValid(s: string)
    ensures ParseLocationRange(s).Some? ==> ValidRange(ParseLocationRange(s).value)
  {
    hide ParseLocation, StartKey;
    var dash := IndexOf(s, '-');
    LocationIsValid(s);
    LocationIsValid(s[..dash]);
    if dash < |s| {
      LocationIsValid(s[dash + 1..]);
    }
  }

  lemma PartIsPlain(s: string, k: nat, c: char)
    requires k <= |s| && c !in s
    ensures c !in s[..k] && c !in s[k..]
  {
  }

  lemma NamedKeepsRanges(u: Url, name: string, value: string)
    requires RangesAreValid(u)
    ensures ParseNamed(u, name, value).Some? ==> RangesAreValid(ParseNamed(u, name, value).value)
  {
    hide ParseTimeRange, ParseLocationRange, ValidTime, ValidRange;
    TimeIsValid(value);
    RangeIsValid(value);
  }

  lemma NamedKeepsPlain(u: Url, name: string, value: string)
    requires FieldsArePlain(u) && name != "" && '&' !in name && '=' !in name && '&' !in value
    ensures ParseNamed(u, name, value).Some? ==> FieldsArePlain(ParseNamed(u, name, value).value)
  {
    hide ParseTimeRange, ParseLocationRange, RangesAreValid;
    NamedKeepsRanges(u, name, value);
  }

  lemma ParameterKeepsPlain(u: Url, p: string)
    requires FieldsArePlain(u) && '&' !in p
    ensures ParseParameter(u, p).Some? ==> FieldsArePlain(ParseParameter(u, p).value)
  {
    hide ParseNamed, FieldsArePlain;
    var equals := IndexOf(p, '=');
    if 0 < equals < |p| {
      PartIsPlain(p, equals, '&');
      PartIsPlain(p, equals + 1, '&');
      NamedKeepsPlain(u, p[..equals], p[equals + 1..]);
    }
  }

  lemma {:induction false} ParametersKeepPlain(u: Url, s: string)
    requires FieldsArePlain(u)
    ensures ParseParameters(u, s).Some? ==> FieldsArePlain(ParseParameters(u, s).value)
    decreases |s|
  {
    hide ParseParameter, FieldsArePlain;
    var amp := IndexOf(s, '&');
    ParameterKeepsPlain(u, s[..amp]);
    if 0 < amp < |s| && ParseParameter(u, s[..amp]).Some? {
      ParametersKeepPlain(ParseParameter(u, s[..amp]).value, s[amp + 1..]);
    }
  }

  /** What the parameters leave alone. */
  lemma {:induction false} ParametersKeepRest(u: Url, s: string)
    ensures ParseParameters(u, s).Some? ==> SameRest(u, ParseParameters(u, s).value)
    decreases |s|
  {
    hide ParseTimeRange, ParseLocationRange;
    var amp := IndexOf(s, '&');
    if 0 < amp < |s| && ParseParameter(u, s[..amp]).Some? {
      ParametersKeepRest(ParseParameter(u, s[..amp]).value, s[amp + 1..]);
    }
  }

  predicate SameRest(u: Url, v: Url) {
    v == u.(connection := v.connection, token := v.token, wallclock := v.wallclock, mediatime := v.mediatime,
            locations := v.locations, extra := v.extra)
  }

  lemma HostPortIsPlainText(s: string)
    requires '#' !in s && '?' !in s && '/' !in s
    ensures ParseHostPort(s).Some? ==>
      var (host, port) := ParseHostPort(s).value;
      host != "" && '#' !in host && '?' !in host && '/' !in host && ':' !in host && 1 <= port <= 65535
  {
    hide ParseU64;
    var colon := IndexOf(s, ':');
    PartIsPlain(s, colon, '#');
    PartIsPlain(s, colon, '?');
    PartIsPlain(s, colon, '/');
    assert s[..|s|] == s;
  }

  /** What stands between the scheme and the fragment, whatever it is. */
  lemma AuthorityIsParsedPlain(s: string)
    requires '#' !in s
    ensures ParseAuthority(s).Some? ==> AuthorityIsPlain(ParseAuthority(s).value) && FieldsArePlain(ParseAuthority(s).value)
  {
    hide ParseHostPort, IndexOf;
    var question := IndexOf(s, '?');
    PartIsPlain(s, question, '#');
    var location := s[..question];
    if question < |s| {
      PartIsPlain(s, question + 1, '#');
    }
    var slash := IndexOf(location, '/');
    PartIsPlain(location, slash, '#');
    PartIsPlain(location, slash, '?');
    HostPortIsPlainText(location[..slash]);
  }

  lemma FragmentKeepsPlain(u: Url, s: string)
    requires AuthorityIsPlain(u) && FieldsArePlain(u)
    ensures ParseFragment(u, s).Some? ==> AuthorityIsPlain(ParseFragment(u, s).value) && FieldsArePlain(ParseFragment(u, s).value)
  {
    hide ParseParameters, Ns.Decode;
    var amp := IndexOf(s, '&');
    var track := Ns.Decode(s[..amp]);
    if track.Some? && amp < |s| {
      ParametersKeepPlain(u.(track := track.value), s[amp + 1..]);
      ParametersKeepRest(u.(track := track.value), s[amp + 1..]);
    }
  }

  /** Whatever the parser accepts is plain, and its ranges fit 64 bits and end no earlier than they start. */
  lemma ParsedIsValid(text: string)
    ensures ParseRaw(text).Some? ==> AuthorityIsPlain(ParseRaw(text).value) && FieldsArePlain(ParseRaw(text).value)
  {
    hide ParseFragment, ParseAuthority, AuthorityIsPlain, FieldsArePlain;
    if ParseRaw(text).Some? {
      var rest := text[7..];
      var hash := IndexOf(rest, '#');
      assert '#' !in rest[..hash];
      AuthorityIsParsedPlain(rest[..hash]);
      FragmentKeepsPlain(ParseAuthority(rest[..hash]).value, rest[hash + 1..][4..]);
    }
  }

  /** A URL is built and parses back as itself if and only if its components are well-formed. */
  lemma UrlRoundTrip(u: Url)
    requires Ns.OfBytes(u.track)
    ensures Build(u).Some? && ParseRaw(Build(u).value) == Some(u) <==> WellFormed(u)
  {
    hide ParseRaw, AuthorityIsPlain, FieldsArePlain, AuthorityText, Parameters;
    if WellFormed(u) {
      WellFormedRoundTrip(u);
    } else if Build(u).Some? {
      ParsedIsValid(Build(u).value);
    }
  }

  lemma TimesAreIntervals(rs: seq<TimeRange>)
    requires forall r | r in rs :: ValidTime(r)
    ensures Valid(Keys(rs, TimeKey))
  {
    forall i | 0 <= i < |rs|
      ensures TimeKey(rs[i]).low <= TimeKey(rs[i]).high
    {
      assert ValidTime(rs[i]);
    }
  }

  lemma LocationsAreIntervals(rs: seq<LocationRange>)
    requires forall r | r in rs :: ValidRange(r)
    ensures Valid(Keys(rs, LocationKey)) && forall r | r in rs :: Bounded(r)
  {
    forall i | 0 <= i < |rs|
      ensures LocationKey(rs[i]).low <= LocationKey(rs[i]).high
    {
      assert ValidRange(rs[i]);
      OpenIsLast(rs[i]);
    }
  }

  lemma OpenIsLast(r: LocationRange)
    requires ValidRange(r)
    ensures StartKey(r.start) <= EndKey(r.end)
  {
  }

  /** The same points in separated ranges, and nothing else changed. */
  ghost predicate IsNormalized(u: Url, v: Url) {
    v == u.(wallclock := v.wallclock, mediatime := v.mediatime, locations := v.locations) &&
    Separated(Keys(v.wallclock, TimeKey)) && Separated(Keys(v.mediatime, TimeKey)) &&
    Separated(Keys(v.locations, LocationKey)) &&
    (forall x: nat :: Covers(Keys(v.wallclock, TimeKey), x) <==> Covers(Keys(u.wallclock, TimeKey), x)) &&
    (forall x: nat :: Covers(Keys(v.mediatime, TimeKey), x) <==> Covers(Keys(u.mediatime, TimeKey), x)) &&
    (forall x: nat :: Covers(Keys(v.locations, LocationKey), x) <==> Covers(Keys(u.locations, LocationKey), x))
  }

  /** `parse_msf_url`: the raw URL with each range list replaced by its union. */
  method ParseMsfUrl(text: string) returns (r: Option<Url>)
    ensures r.None? <==> ParseRaw(text).None?
    ensures r.Some? ==> IsNormalized(ParseRaw(text).value, r.value)
  {
    hide ParseRaw, Valid, Separated, Covers, Keys;
    var raw := ParseRaw(text);
    if raw.None? {
      return None;
    }
    var u := raw.value;
    ParsedIsValid(text);
    TimesAreIntervals(u.wallclock);
    TimesAreIntervals(u.mediatime);
    LocationsAreIntervals(u.locations);
    var wallclock := UnionTimeRanges(u.wallclock);
    var mediatime := UnionTimeRanges(u.mediatime);
    var locations := UnionLocationRanges(u.locations);
    return Some(u.(wallclock := wallclock, mediatime := mediatime, locations := locations));
  }

  /** The building loops: parameters appended in order. */
  method BuildMsfUrl(u: Url) returns (r: Option<string>)
    requires Ns.OfBytes(u.track)
    ensures r == Build(u)
  {
    hide Parameters, Ns.Encode;
    if u.host == "" || '#' in u.host || (u.pathExplicit && '#' in u.path) {
      return None;
    }
    var track := Ns.EncodeNamespaceName(u.track);
    if track.None? {
      return None;
    }
    var ps := Parameters(u);
    var out := Scheme + AuthorityText(u) + "#msf:" + track.value;
    ghost var front := out;
    assert ps[0..] == ps;
    for i := 0 to |ps|
      invariant out + WithAmpersands(ps[i..]) == front + WithAmpersands(ps)
    {
      assert ps[i..][1..] == ps[i + 1..];
      assert out + ("&" + ps[i] + WithAmpersands(ps[i + 1..])) == out + "&" + ps[i] + WithAmpersands(ps[i + 1..]);
      out := out + "&";
      out := out + ps[i];
    }
    assert ps[|ps|..] == [] && out + "" == out;
    return Some(out);
  }
}
