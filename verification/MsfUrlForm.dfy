/**
 * Which texts are MSF URLs, and what each says: the parser accepts exactly the texts made
 * of these parts, in any spelling of scheme, numbers and identifier and any order of parameters.
 */
module MsfUrlForm {
  import opened Bytes
  import opened Decimals
  import opened RangeUnion
  import opened MsfUrl
  import Ns = MsfNamespace
  import Form = MsfNamespaceForm

  // ---- values

  /** Digits of a number of 64 bits. */
  ghost predicate IsNumber(text: string, n: nat) {
    text != "" && AllDigits(text) && DigitsValue(text) == n <= MaxU64
  }

  lemma NumberExactly(text: string, n: nat)
    ensures ParseU64(text) == Some(n) <==> IsNumber(text, n)
    ensures IsNumber(text, n) ==> '-' !in text && '.' !in text && '/' !in text && '?' !in text && '#' !in text
  {
    ParsesExactly(text);
    if IsNumber(text, n) {
      forall c | c in text
        ensures '0' <= c <= '9'
      {
        var i :| 0 <= i < |text| && text[i] == c;
      }
    }
  }

  /** A start, or a start and an end no earlier. */
  ghost predicate IsTime(text: string, r: TimeRange) {
    if r.end.None? then IsNumber(text, r.start)
    else exists a, b :: text == a + "-" + b && IsNumber(a, r.start) && IsNumber(b, r.end.value) && r.start <= r.end.value
  }

  lemma TimeExactly(text: string, r: TimeRange)
    ensures ParseTimeRange(text) == Some(r) <==> IsTime(text, r)
  {
    hide ParseU64, IsNumber;
    var dash := IndexOf(text, '-');
    if dash == |text| {
      NumberExactly(text, r.start);
      if r.end.Some? && IsTime(text, r) {
        var a, b :| text == a + "-" + b && IsNumber(a, r.start) && IsNumber(b, r.end.value) && r.start <= r.end.value;
        DashInside(a, b);
      }
    } else {
      if r.end.None? {
        NumberExactly(text, r.start);
        assert text[dash] in text;
      }
      if ParseTimeRange(text) == Some(r) {
        NumberExactly(text[..dash], r.start);
        NumberExactly(text[dash + 1..], r.end.value);
        assert text == text[..dash] + "-" + text[dash + 1..];
      }
      if r.end.Some? && IsTime(text, r) {
        var a, b :| text == a + "-" + b && IsNumber(a, r.start) && IsNumber(b, r.end.value) && r.start <= r.end.value;
        NumberExactly(a, r.start);
        NumberExactly(b, r.end.value);
        assert text == a + ['-'] + b;
        IndexOfIs(a, '-', b);
      }
    }
  }

  lemma DashInside(a: string, b: string)
    ensures '-' in a + "-" + b
  {
    assert (a + "-" + b)[|a|] == '-';
  }

  /** A group, or a group and an object. */
  ghost predicate IsLocation(text: string, l: Location) {
    if l.id.None? then IsNumber(text, l.group)
    else exists a, b :: text == a + "." + b && IsNumber(a, l.group) && IsNumber(b, l.id.value)
  }

  lemma LocationExactly(text: string, l: Location)
    ensures ParseLocation(text) == Some(l) <==> IsLocation(text, l)
    ensures IsLocation(text, l) ==> '-' !in text && l.group <= MaxU64 && (l.id.Some? ==> l.id.value <= MaxU64)
  {
    hide ParseU64;
    var dot := IndexOf(text, '.');
    if l.id.None? {
      NumberExactly(text, l.group);
      assert dot < |text| ==> text[dot] in text;
    } else {
      if ParseLocation(text) == Some(l) {
        NumberExactly(text[..dot], l.group);
        NumberExactly(text[dot + 1..], l.id.value);
        assert text == text[..dot] + "." + text[dot + 1..];
      }
      if IsLocation(text, l) {
        var a, b :| text == a + "." + b && IsNumber(a, l.group) && IsNumber(b, l.id.value);
        NumberExactly(a, l.group);
        NumberExactly(b, l.id.value);
        assert text == a + ['.'] + b;
        IndexOfIs(a, '.', b);
      }
    }
  }

  /** The end is in an earlier group, or at an earlier object of the same one. */
  predicate EndsBefore(end: Location, start: Location) {
    end.group < start.group ||
    (end.group == start.group && end.id.Some? && start.id.Some? && end.id.value < start.id.value)
  }

  ghost predicate IsRange(text: string, r: LocationRange) {
    if r.end.None? then IsLocation(text, r.start)
    else
      exists a, b ::
        text == a + "-" + b && IsLocation(a, r.start) && IsLocation(b, r.end.value) && !EndsBefore(r.end.value, r.start)
  }

  lemma RangeExactly(text: string, r: LocationRange)
    ensures ParseLocationRange(text) == Some(r) <==> IsRange(text, r)
  {
    hide ParseLocation, IsLocation;
    var dash := IndexOf(text, '-');
    if r.end.None? {
      LocationExactly(text, r.start);
      assert dash < |text| ==> text[dash] in text;
    } else {
      if ParseLocationRange(text) == Some(r) {
        LocationExactly(text[..dash], r.start);
        LocationExactly(text[dash + 1..], r.end.value);
        assert text == text[..dash] + "-" + text[dash + 1..];
      }
      if IsRange(text, r) {
        var a, b :| text == a + "-" + b && IsLocation(a, r.start) && IsLocation(b, r.end.value) &&
          !EndsBefore(r.end.value, r.start);
        LocationExactly(a, r.start);
        LocationExactly(b, r.end.value);
        assert text == a + ['-'] + b;
        IndexOfIs(a, '-', b);
      }
    }
  }

  // ---- parameters

  type Pair = (string, string)

  predicate ValidPair(p: Pair) {
    p.0 != "" && '=' !in p.0 && '&' !in p.0 && '&' !in p.1
  }

  predicate ValidPairs(ps: seq<Pair>) {
    forall p | p in ps :: ValidPair(p)
  }

  function Texts(ps: seq<Pair>): seq<string> {
    seq(|ps|, i requires 0 <= i < |ps| => ps[i].0 + "=" + ps[i].1)
  }

  /** The values of the parameters of one name, in order. */
  function ValuesOf(ps: seq<Pair>, name: string): seq<string>
    decreases |ps|
  {
    if ps == [] then [] else (if ps[0].0 == name then [ps[0].1] else []) + ValuesOf(ps[1..], name)
  }

  /** The parameters of no reserved name, in order. */
  function Others(ps: seq<Pair>): seq<Pair>
    decreases |ps|
  {
    if ps == [] then []
    else
      (if ps[0].0 !in {"connection", "c4m", "wallclock-range", "mediatime-range", "location-range"} then [ps[0]] else []) +
      Others(ps[1..])
  }

  /** At most one connection parameter, and of a known value. */
  ghost predicate Connects(before: Connection, values: seq<string>, after: Connection) {
    (values == [] && after == before) || (before.AnyConnection? && values == ["q"] && after.RawQuic?) ||
    (before.AnyConnection? && values == ["wt"] && after.WebTransport?)
  }

  ghost predicate Carries(before: Option<string>, values: seq<string>, after: Option<string>) {
    (values == [] && after == before) || (before.None? && |values| == 1 && after == Some(values[0]))
  }

  ghost predicate Times(before: seq<TimeRange>, values: seq<string>, after: seq<TimeRange>) {
    |after| == |before| + |values| && before <= after &&
    forall i | 0 <= i < |values| :: IsTime(values[i], after[|before| + i])
  }

  ghost predicate Locations(before: seq<LocationRange>, values: seq<string>, after: seq<LocationRange>) {
    |after| == |before| + |values| && before <= after &&
    forall i | 0 <= i < |values| :: IsRange(values[i], after[|before| + i])
  }

  /** What a list of parameters adds to a URL. */
  ghost predicate Adds(u: Url, ps: seq<Pair>, v: Url) {
    v == u.(connection := v.connection, token := v.token, wallclock := v.wallclock, mediatime := v.mediatime,
            locations := v.locations, extra := u.extra + Others(ps)) &&
    Connects(u.connection, ValuesOf(ps, "connection"), v.connection) && Carries(u.token, ValuesOf(ps, "c4m"), v.token) &&
    Times(u.wallclock, ValuesOf(ps, "wallclock-range"), v.wallclock) &&
    Times(u.mediatime, ValuesOf(ps, "mediatime-range"), v.mediatime) &&
    Locations(u.locations, ValuesOf(ps, "location-range"), v.locations)
  }

  lemma OneTime(before: seq<TimeRange>, value: string, after: seq<TimeRange>)
    ensures Times(before, [value], after) <==>
      exists r :: ParseTimeRange(value) == Some(r) && after == before + [r]
    ensures Times(before, [], after) <==> after == before
  {
    hide ParseTimeRange, IsTime;
    if Times(before, [value], after) {
      var r := after[|before|];
      TimeExactly(value, r);
      assert [value][0] == value;
      assert after == before + [r];
    }
    if r :| ParseTimeRange(value) == Some(r) && after == before + [r] {
      TimeExactly(value, r);
    }
  }

  lemma OneLocation(before: seq<LocationRange>, value: string, after: seq<LocationRange>)
    ensures Locations(before, [value], after) <==>
      exists r :: ParseLocationRange(value) == Some(r) && after == before + [r]
    ensures Locations(before, [], after) <==> after == before
  {
    hide ParseLocationRange, IsRange;
    if Locations(before, [value], after) {
      var r := after[|before|];
      RangeExactly(value, r);
      assert [value][0] == value;
      assert after == before + [r];
    }
    if r :| ParseLocationRange(value) == Some(r) && after == before + [r] {
      RangeExactly(value, r);
    }
  }

  lemma OneValue(p: Pair, name: string)
    ensures ValuesOf([p], name) == if p.0 == name then [p.1] else []
    ensures Others([p]) == if Reserved(p.0) then [] else [p]
  {
    assert [p][1..] == [];
    assert ValuesOf([], name) == [] && Others([]) == [];
  }

  lemma OneExactly(u: Url, p: Pair, v: Url)
    ensures ParseNamed(u, p.0, p.1) == Some(v) <==> Adds(u, [p], v)
  {
    hide ValuesOf, Others, Times, Locations, ParseTimeRange, ParseLocationRange;
    OneValue(p, "connection");
    OneValue(p, "c4m");
    OneValue(p, "wallclock-range");
    OneValue(p, "mediatime-range");
    OneValue(p, "location-range");
    OneTime(u.wallclock, p.1, v.wallclock);
    OneTime(u.mediatime, p.1, v.mediatime);
    OneLocation(u.locations, p.1, v.locations);
    assert u.extra + [] == u.extra;
  }

  lemma TimesJoin(before: seq<TimeRange>, a: seq<string>, mid: seq<TimeRange>, b: seq<string>, after: seq<TimeRange>)
    requires Times(before, a, mid)
    ensures Times(mid, b, after) ==> Times(before, a + b, after)
    ensures Times(before, a + b, after) && mid <= after ==> Times(mid, b, after)
  {
    hide IsTime;
    if Times(before, a + b, after) && mid <= after {
      forall i | 0 <= i < |b|
        ensures IsTime(b[i], after[|mid| + i])
      {
        assert (a + b)[|a| + i] == b[i];
      }
    }
  }

  lemma LocationsJoin(before: seq<LocationRange>, a: seq<string>, mid: seq<LocationRange>, b: seq<string>,
                      after: seq<LocationRange>)
    requires Locations(before, a, mid)
    ensures Locations(mid, b, after) ==> Locations(before, a + b, after)
    ensures Locations(before, a + b, after) && mid <= after ==> Locations(mid, b, after)
  {
    hide IsRange;
    if Locations(before, a + b, after) && mid <= after {
      forall i | 0 <= i < |b|
        ensures IsRange(b[i], after[|mid| + i])
      {
        assert (a + b)[|a| + i] == b[i];
      }
    }
  }

  /** What comes first is added first. */
  lemma AddsJoin(u: Url, p: Pair, mid: Url, rest: seq<Pair>, v: Url)
    requires Adds(u, [p], mid) && Adds(mid, rest, v)
    ensures Adds(u, [p] + rest, v)
  {
    hide ValuesOf, Others, Times, Locations;
    FirstValues(p, rest);
    TimesJoin(u.wallclock, ValuesOf([p], "wallclock-range"), mid.wallclock, ValuesOf(rest, "wallclock-range"), v.wallclock);
    TimesJoin(u.mediatime, ValuesOf([p], "mediatime-range"), mid.mediatime, ValuesOf(rest, "mediatime-range"), v.mediatime);
    LocationsJoin(u.locations, ValuesOf([p], "location-range"), mid.locations, ValuesOf(rest, "location-range"), v.locations);
    assert u.extra + Others([p]) + Others(rest) == u.extra + (Others([p]) + Others(rest));
    assert ValuesOf([p], "connection") == [] ==> ValuesOf([p] + rest, "connection") == ValuesOf(rest, "connection");
    assert ValuesOf(rest, "connection") == [] ==> ValuesOf([p] + rest, "connection") == ValuesOf([p], "connection");
    assert ValuesOf([p], "c4m") == [] ==> ValuesOf([p] + rest, "c4m") == ValuesOf(rest, "c4m");
    assert ValuesOf(rest, "c4m") == [] ==> ValuesOf([p] + rest, "c4m") == ValuesOf([p], "c4m");
  }

  lemma FirstValues(p: Pair, rest: seq<Pair>)
    ensures forall name :: ValuesOf([p] + rest, name) == ValuesOf([p], name) + ValuesOf(rest, name)
    ensures Others([p] + rest) == Others([p]) + Others(rest)
  {
    assert ([p] + rest)[1..] == rest && [p][1..] == [];
    forall name
      ensures ValuesOf([p] + rest, name) == ValuesOf([p], name) + ValuesOf(rest, name)
    {
      assert ValuesOf([], name) == [];
    }
    assert Others([]) == [];
  }

  /** The part of a longer list that its first parameter adds. */
  lemma AddsFirst(u: Url, p: Pair, rest: seq<Pair>, v: Url) returns (mid: Url)
    requires Adds(u, [p] + rest, v)
    ensures Adds(u, [p], mid) && Adds(mid, rest, v)
  {
    hide ValuesOf, Others, Times, Locations, Connects, Carries;
    mid := u.(connection := if p.0 == "connection" then v.connection else u.connection,
              token := if p.0 == "c4m" then v.token else u.token,
              wallclock := FirstOf(u.wallclock, v.wallclock, p.0 == "wallclock-range"),
              mediatime := FirstOf(u.mediatime, v.mediatime, p.0 == "mediatime-range"),
              locations := FirstOf(u.locations, v.locations, p.0 == "location-range"),
              extra := u.extra + Others([p]));
    FirstTime(u.wallclock, p, rest, "wallclock-range", v.wallclock);
    FirstTime(u.mediatime, p, rest, "mediatime-range", v.mediatime);
    FirstLocation(u.locations, p, rest, v.locations);
    FirstConnection(u.connection, p, rest, v.connection);
    FirstToken(u.token, p, rest, v.token);
    FirstValues(p, rest);
    assert u.extra + Others([p]) + Others(rest) == u.extra + (Others([p]) + Others(rest));
  }

  /** What the first parameter leaves of a list: one more entry when it is its own. */
  function FirstOf<T>(before: seq<T>, after: seq<T>, own: bool): seq<T> {
    if own && |after| > |before| then after[..|before| + 1] else before
  }

  lemma FirstConnection(before: Connection, p: Pair, rest: seq<Pair>, after: Connection)
    requires Connects(before, ValuesOf([p] + rest, "connection"), after)
    ensures var mid := if p.0 == "connection" then after else before;
      Connects(before, ValuesOf([p], "connection"), mid) && Connects(mid, ValuesOf(rest, "connection"), after)
  {
    hide ValuesOf;
    FirstValues(p, rest);
    OneValue(p, "connection");
    if p.0 == "connection" {
      var values := ValuesOf([p] + rest, "connection");
      assert |values| == 1 + |ValuesOf(rest, "connection")| && values[0] == p.1;
    } else {
      assert [] + ValuesOf(rest, "connection") == ValuesOf(rest, "connection");
    }
  }

  lemma FirstToken(before: Option<string>, p: Pair, rest: seq<Pair>, after: Option<string>)
    requires Carries(before, ValuesOf([p] + rest, "c4m"), after)
    ensures var mid := if p.0 == "c4m" then after else before;
      Carries(before, ValuesOf([p], "c4m"), mid) && Carries(mid, ValuesOf(rest, "c4m"), after)
  {
    hide ValuesOf;
    FirstValues(p, rest);
    OneValue(p, "c4m");
    if p.0 == "c4m" {
      var values := ValuesOf([p] + rest, "c4m");
      assert |values| == 1 + |ValuesOf(rest, "c4m")| && values[0] == p.1;
    } else {
      assert [] + ValuesOf(rest, "c4m") == ValuesOf(rest, "c4m");
    }
  }

  lemma FirstTime(before: seq<TimeRange>, p: Pair, rest: seq<Pair>, name: string, after: seq<TimeRange>)
    requires Times(before, ValuesOf([p] + rest, name), after)
    ensures var mid := FirstOf(before, after, p.0 == name);
      Times(before, ValuesOf([p], name), mid) && Times(mid, ValuesOf(rest, name), after)
  {
    hide ValuesOf, IsTime;
    FirstValues(p, rest);
    OneValue(p, name);
    var values := ValuesOf(rest, name);
    if p.0 == name {
      var mid := after[..|before| + 1];
      assert ([p.1] + values)[0] == p.1;
      assert Times(before, [p.1], mid);
      TimesJoin(before, [p.1], mid, values, after);
    } else {
      assert [] + values == values;
    }
  }

  lemma FirstLocation(before: seq<LocationRange>, p: Pair, rest: seq<Pair>, after: seq<LocationRange>)
    requires Locations(before, ValuesOf([p] + rest, "location-range"), after)
    ensures var mid := FirstOf(before, after, p.0 == "location-range");
      Locations(before, ValuesOf([p], "location-range"), mid) && Locations(mid, ValuesOf(rest, "location-range"), after)
  {
    hide ValuesOf, IsRange;
    FirstValues(p, rest);
    OneValue(p, "location-range");
    var values := ValuesOf(rest, "location-range");
    if p.0 == "location-range" {
      var mid := after[..|before| + 1];
      assert ([p.1] + values)[0] == p.1;
      assert Locations(before, [p.1], mid);
      LocationsJoin(before, [p.1], mid, values, after);
    } else {
      assert [] + values == values;
    }
  }

  lemma AddsNothing(u: Url)
    ensures Adds(u, [], u)
    ensures forall v | Adds(u, [], v) :: v == u
  {
    assert u.extra + [] == u.extra;
  }

  /** Reading parameters one by one adds exactly what the list says. */
  lemma {:induction false} AllExactly(u: Url, ps: seq<Pair>, v: Url)
    requires ValidPairs(ps)
    ensures ParseAll(u, Texts(ps)) == Some(v) <==> Adds(u, ps, v)
    decreases |ps|
  {
    hide ParseNamed, ParseParameter, Adds, ValidPair;
    if ps == [] {
      AddsNothing(u);
    } else {
      var p, rest := ps[0], ps[1..];
      assert ps == [p] + rest;
      assert Texts(ps)[1..] == Texts(rest);
      FirstRead(u, p);
      var next := ParseNamed(u, p.0, p.1);
      if next.Some? {
        OneExactly(u, p, next.value);
        AllExactly(next.value, rest, v);
        if Adds(next.value, rest, v) {
          AddsJoin(u, p, next.value, rest, v);
        }
      }
      if Adds(u, ps, v) {
        var mid := AddsFirst(u, p, rest, v);
        OneExactly(u, p, mid);
      }
    }
  }

  lemma FirstRead(u: Url, p: Pair)
    requires ValidPair(p)
    ensures ParseParameter(u, p.0 + "=" + p.1) == ParseNamed(u, p.0, p.1)
  {
    hide ParseNamed;
    NamedParameter(u, p.0, p.1);
  }

  lemma PairWas(u: Url, text: string) returns (p: Pair)
    requires ParseParameter(u, text).Some? && '&' !in text
    ensures ValidPair(p) && text == p.0 + "=" + p.1
  {
    hide ParseNamed;
    var equals := IndexOf(text, '=');
    p := (text[..equals], text[equals + 1..]);
    assert text == p.0 + "=" + p.1;
  }

  lemma {:induction false} PairsWere(u: Url, s: string) returns (ps: seq<Pair>)
    requires ParseParameters(u, s).Some?
    ensures ps != [] && ValidPairs(ps) && WithAmpersands(Texts(ps)) == "&" + s
    decreases |s|
  {
    hide ParseParameter, WithAmpersands, Texts, ValidPair;
    var amp := IndexOf(s, '&');
    var text := s[..amp];
    assert '&' !in text;
    var p := PairWas(u, text);
    ps := [p];
    if amp == |s| {
      assert text == s;
      OneText(p);
    } else {
      var rest := s[amp + 1..];
      var more := PairsWere(ParseParameter(u, text).value, rest);
      ps := [p] + more;
      TextsFirst(p, more);
      AmpersandsStep(Texts(ps));
      assert s == text + ['&'] + rest;
      TextJoins(text, rest, s);
    }
  }

  lemma OneText(p: Pair)
    ensures WithAmpersands(Texts([p])) == "&" + (p.0 + "=" + p.1)
  {
    var t := p.0 + "=" + p.1;
    assert Texts([p]) == [t];
    AmpersandsStep([t]);
    AmpersandsNone();
    assert [t][1..] == [] && "&" + t + "" == "&" + t;
  }

  lemma TextJoins(text: string, rest: string, s: string)
    requires s == text + ['&'] + rest
    ensures "&" + text + ("&" + rest) == "&" + s
  {
  }

  lemma TextsFirst(p: Pair, rest: seq<Pair>)
    ensures Texts([p] + rest) == [p.0 + "=" + p.1] + Texts(rest) && Texts([p] + rest)[1..] == Texts(rest)
    ensures Texts([]) == []
  {
  }

  // ---- authority, path and query

  /** A host, perhaps a port, a path and a query. */
  ghost predicate IsAuthority(a: string, u: Url, port: string, path: string, query: string) {
    a == u.host + port + path + query && u.host != "" && ':' !in u.host && '/' !in u.host && '?' !in u.host &&
    (if port == "" then u.port == 443 else port[0] == ':' && IsNumber(port[1..], u.port) && 1 <= u.port <= 65535) &&
    (if path == "" then u.path == "/" && !u.pathExplicit
     else path[0] == '/' && '?' !in path && u.path == path && u.pathExplicit) &&
    (if query == "" then u.query == "" else query == "?" + u.query) &&
    u == Blank.(host := u.host, port := u.port, path := u.path, pathExplicit := u.pathExplicit, query := u.query)
  }

  lemma PortExactly(text: string, n: nat)
    ensures ParsePort(text) == Some(n) <==> IsNumber(text, n) && 1 <= n <= 65535
  {
    hide ParseU64;
    NumberExactly(text, n);
  }

  lemma HostExactly(a: string, host: string, n: nat)
    ensures ParseHostPort(a) == Some((host, n)) <==>
      host != "" && ':' !in host &&
      ((a == host && n == 443) || exists d :: a == host + ":" + d && IsNumber(d, n) && 1 <= n <= 65535)
  {
    hide ParsePort, IsNumber;
    var colon := IndexOf(a, ':');
    if ParseHostPort(a) == Some((host, n)) && colon < |a| {
      PortExactly(a[colon + 1..], n);
      assert a == host + ":" + a[colon + 1..];
    }
    if host != "" && ':' !in host {
      if a == host {
        IndexOfNone(a, ':');
      }
      if d :| a == host + ":" + d && IsNumber(d, n) && 1 <= n <= 65535 {
        assert a == host + [':'] + d;
        IndexOfIs(host, ':', d);
        PortExactly(d, n);
      }
    }
  }

  lemma AuthorityRead(a: string, u: Url, port: string, path: string, query: string)
    requires IsAuthority(a, u, port, path, query)
    ensures ParseAuthority(a) == Some(u)
  {
    hide ParseHostPort, IsNumber, AllDigits, DigitsValue, IndexOf;
    var hostPort := u.host + port;
    if port != "" {
      NumberExactly(port[1..], u.port);
      assert port == ":" + port[1..];
      assert hostPort == u.host + ":" + port[1..];
    } else {
      assert hostPort == u.host;
    }
    HostExactly(hostPort, u.host, u.port);
    var location := hostPort + path;
    assert a == location + query;
    QueryRead(location, query, u.query);
    PathRead(hostPort, path, u);
  }

  lemma QueryRead(location: string, query: string, said: string)
    requires '?' !in location && if query == "" then said == "" else query == "?" + said
    ensures SplitQuery(location + query) == (location, said)
  {
    hide IndexOf;
    if query == "" {
      assert location + query == location;
      IndexOfNone(location, '?');
      assert location[..|location|] == location;
    } else {
      assert location + query == location + ['?'] + said;
      IndexOfIs(location, '?', said);
    }
  }

  lemma PathRead(hostPort: string, path: string, u: Url)
    requires '/' !in hostPort
    requires if path == "" then u.path == "/" && !u.pathExplicit else path[0] == '/' && u.path == path && u.pathExplicit
    ensures SplitPath(hostPort + path) == (hostPort, u.path, u.pathExplicit)
  {
    hide IndexOf;
    if path == "" {
      assert hostPort + path == hostPort;
      IndexOfNone(hostPort, '/');
      assert hostPort[..|hostPort|] == hostPort;
    } else {
      assert hostPort + path == hostPort + ['/'] + path[1..];
      IndexOfIs(hostPort, '/', path[1..]);
      assert (hostPort + path)[|hostPort|..] == path;
    }
  }

  lemma QueryWas(a: string) returns (query: string)
    ensures var (location, said) := SplitQuery(a);
      a == location + query && '?' !in location && (if query == "" then said == "" else query == "?" + said)
  {
    var question := IndexOf(a, '?');
    query := a[question..];
    assert question < |a| ==> query == "?" + a[question + 1..];
  }

  lemma PathWas(location: string) returns (path: string)
    ensures var (authority, said, explicit) := SplitPath(location);
      location == authority + path && '/' !in authority &&
      (if path == "" then said == "/" && !explicit else path[0] == '/' && said == path && explicit)
  {
    var slash := IndexOf(location, '/');
    path := location[slash..];
  }

  lemma AuthorityWas(a: string) returns (port: string, path: string, query: string)
    requires ParseAuthority(a).Some?
    ensures IsAuthority(a, ParseAuthority(a).value, port, path, query)
  {
    hide ParseHostPort, IsNumber, SplitQuery, SplitPath;
    var u := ParseAuthority(a).value;
    query := QueryWas(a);
    var location := SplitQuery(a).0;
    path := PathWas(location);
    var hostPort := SplitPath(location).0;
    HostExactly(hostPort, u.host, u.port);
    port := PortWas(hostPort, u.host, u.port);
    assert a == u.host + port + path + query;
    assert forall c | c in u.host :: c in hostPort;
    assert forall c | c in hostPort || c in path :: c in location;
  }

  lemma PortWas(hostPort: string, host: string, n: nat) returns (port: string)
    requires (hostPort == host && n == 443) || exists d :: hostPort == host + ":" + d && IsNumber(d, n) && 1 <= n <= 65535
    ensures hostPort == host + port
    ensures if port == "" then n == 443 else port[0] == ':' && IsNumber(port[1..], n) && 1 <= n <= 65535
  {
    hide IsNumber;
    port := "";
    if hostPort != host {
      var d :| hostPort == host + ":" + d && IsNumber(d, n) && 1 <= n <= 65535;
      port := ":" + d;
      assert port[1..] == d;
    }
  }

  // ---- the whole

  /** The scheme in any mixture of cases. */
  predicate IsScheme(s: string) {
    |s| == 7 && s[0] in {'m', 'M'} && s[1] in {'o', 'O'} && s[2] in {'q', 'Q'} && s[3] in {'t', 'T'} && s[4..] == "://"
  }

  lemma SchemeExactly(text: string)
    ensures HasScheme(text) <==> |text| >= 7 && IsScheme(text[..7])
  {
    if |text| >= 7 {
      var s := text[..7];
      assert Scheme[0] == 'm' && Scheme[1] == 'o' && Scheme[2] == 'q' && Scheme[3] == 't';
      assert Scheme[4] == ':' && Scheme[5] == '/' && Scheme[6] == '/';
      assert s[4..] == [s[4], s[5], s[6]];
    }
  }

  /** A URL in its parts. */
  datatype Parts = Parts(scheme: string, authority: string, port: string, path: string, query: string, track: string,
                         pairs: seq<Pair>) {
    function Text(): string {
      scheme + authority + "#msf:" + track + WithAmpersands(Texts(pairs))
    }

    ghost predicate Say(u: Url, base: Url) {
      IsScheme(scheme) && '#' !in authority && '&' !in track && ValidPairs(pairs) &&
      IsAuthority(authority, base, port, path, query) &&
      (exists texts, name :: Form.IsText(track, u.track, texts, name)) && Adds(base.(track := u.track), pairs, u)
    }
  }

  lemma TrackHasNoAmpersand(s: string, id: Ns.TrackId)
    requires exists texts, name :: Form.IsText(s, id, texts, name)
    ensures Ns.Decode(s) == Some(id)
  {
    hide Ns.Decode;
    Form.DecodesExactly(s, id);
  }

  lemma FragmentSays(base: Url, u: Url, track: string, pairs: seq<Pair>)
    requires '&' !in track && ValidPairs(pairs) && Ns.Decode(track).Some?
    ensures ParseFragment(base, track + WithAmpersands(Texts(pairs))) == Some(u) <==>
      Ns.Decode(track) == Some(u.track) && Adds(base.(track := u.track), pairs, u)
  {
    hide Ns.Decode, ParseParameters, Adds, WithAmpersands;
    var id := Ns.Decode(track).value;
    var next := base.(track := id);
    AllExactly(next, pairs, u);
    if pairs == [] {
      AmpersandsNone();
      assert track + "" == track;
      IndexOfNone(track, '&');
      assert track[..|track|] == track;
      assert Texts(pairs) == [];
      AddsNothing(next);
      if Adds(base.(track := u.track), pairs, u) {
        AddsNothing(base.(track := u.track));
      }
    } else {
      var texts := Texts(pairs);
      PairTextsPlain(pairs);
      ParametersSplit(next, texts);
      AmpersandsFirst(texts);
      AmpersandsStep(texts);
      var s := WithAmpersands(texts);
      assert s == ['&'] + s[1..];
      assert track + s == track + ['&'] + s[1..];
      IndexOfIs(track, '&', s[1..]);
    }
    AddsKeepsTrack(base.(track := u.track), pairs, u);
    AddsKeepsTrack(next, pairs, u);
  }

  lemma AddsKeepsTrack(base: Url, pairs: seq<Pair>, u: Url)
    ensures Adds(base, pairs, u) ==> u.track == base.track
  {
    hide Connects, Carries, Times, Locations, ValuesOf, Others;
  }

  lemma PairTextsPlain(pairs: seq<Pair>)
    requires ValidPairs(pairs)
    ensures PlainParameters(Texts(pairs))
  {
    forall t | t in Texts(pairs)
      ensures t != "" && '&' !in t
    {
      var i :| 0 <= i < |pairs| && Texts(pairs)[i] == t;
      assert pairs[i] in pairs;
    }
  }

  lemma PartsRead(parts: Parts, u: Url, base: Url)
    requires parts.Say(u, base)
    ensures ParseRaw(parts.Text()) == Some(u)
  {
    hide ParseFragment, ParseAuthority, Adds, IsAuthority, WithAmpersands, IndexOf, Form.IsText, HasScheme, IsScheme;
    var text := parts.Text();
    var rest := parts.authority + "#msf:" + parts.track + WithAmpersands(Texts(parts.pairs));
    var fragment := "msf:" + (parts.track + WithAmpersands(Texts(parts.pairs)));
    SchemeLength(parts.scheme);
    assert text == parts.scheme + rest;
    assert text[..7] == parts.scheme && text[7..] == rest;
    SchemeExactly(text);
    assert rest == parts.authority + ['#'] + fragment;
    IndexOfIs(parts.authority, '#', fragment);
    AuthorityRead(parts.authority, base, parts.port, parts.path, parts.query);
    assert fragment[..4] == "msf:" && fragment[4..] == parts.track + WithAmpersands(Texts(parts.pairs));
    TrackHasNoAmpersand(parts.track, u.track);
    FragmentSays(base, u, parts.track, parts.pairs);
  }

  lemma SchemeLength(s: string)
    requires IsScheme(s)
    ensures |s| == 7
  {
  }

  lemma PartsWere(text: string) returns (parts: Parts, base: Url)
    requires ParseRaw(text).Some?
    ensures parts.Text() == text && parts.Say(ParseRaw(text).value, base)
  {
    hide ParseFragment, ParseAuthority, Adds, IsAuthority, WithAmpersands, Form.IsText, HasScheme, IsScheme, Ns.Decode;
    var u := ParseRaw(text).value;
    SchemeExactly(text);
    var rest := text[7..];
    var hash := IndexOf(rest, '#');
    var authority, fragment := rest[..hash], rest[hash + 1..];
    base := ParseAuthority(authority).value;
    var port, path, query := AuthorityWas(authority);
    var track, pairs := FragmentWas(base, fragment[4..]);
    parts := Parts(text[..7], authority, port, path, query, track, pairs);
    FragmentSays(base, u, track, pairs);
    Form.DecodesExactly(track, u.track);
    assert '#' !in authority;
    assert fragment == "msf:" + fragment[4..];
    assert rest == authority + "#" + fragment;
    assert text == text[..7] + rest;
    assert text == text[..7] + authority + "#msf:" + fragment[4..];
  }

  lemma FragmentWas(base: Url, s: string) returns (track: string, pairs: seq<Pair>)
    requires ParseFragment(base, s).Some?
    ensures s == track + WithAmpersands(Texts(pairs)) && '&' !in track && ValidPairs(pairs) && Ns.Decode(track).Some?
  {
    hide Ns.Decode, ParseParameters, WithAmpersands;
    var amp := IndexOf(s, '&');
    track := s[..amp];
    pairs := [];
    if amp < |s| {
      pairs := PairsWere(base.(track := Ns.Decode(track).value), s[amp + 1..]);
      assert s == track + ("&" + s[amp + 1..]);
    } else {
      AmpersandsNone();
      assert Texts(pairs) == [] && s == track && track + "" == track;
    }
  }

  /** A text is a URL, and says what it is read as, exactly when it is made of parts that say so. */
  lemma UrlExactly(text: string, u: Url)
    ensures ParseRaw(text) == Some(u) <==> exists parts: Parts, base: Url :: parts.Text() == text && parts.Say(u, base)
  {
    hide ParseRaw, Parts.Say, Parts.Text;
    if ParseRaw(text) == Some(u) {
      var parts, base := PartsWere(text);
    }
    if parts: Parts, base: Url :| parts.Text() == text && parts.Say(u, base) {
      PartsRead(parts, u, base);
    }
  }

  /** Building is refused exactly without a host, with a hash ahead of the fragment, or with an empty element. */
  lemma BuildRefusesExactly(u: Url)
    requires Ns.OfBytes(u.track)
    ensures Build(u).None? <==>
      u.host == "" || '#' in u.host || (u.pathExplicit && '#' in u.path) || u.track.namespace == [] || u.track.name == "" ||
      "" in u.track.namespace
  {
    hide AuthorityText, Parameters, WithAmpersands, Ns.Joined, Ns.Escape;
  }
}
