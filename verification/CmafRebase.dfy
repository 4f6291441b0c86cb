/**
 * Rebasing the decode times of a CMAF payload. The result is described slice by
 * slice: same-length edits inside each movie fragment first, then four bytes
 * more for every version 0 decode time that no longer fits 32 bits.
 */
module CmafRebase {
  import opened Bytes
  import opened Mp4Boxes

  /** A decode time box to widen: its offset in the payload and its new value. */
  datatype Widening = Widening(at: nat, value: nat)

  // ---- finding children

  function CountTrafs(kids: seq<Node>): nat {
    if kids == [] then 0
    else CountTrafs(kids[..|kids| - 1]) + if kids[|kids| - 1].name == "traf" then 1 else 0
  }

  /** The box flags of a full box. */
  function Flags(body: seq<Byte>): nat
    requires |body| >= 4
  {
    FromBE(body[1..4])
  }

  // ---- decode times

  datatype TimeEdit = Refuse | Keep(bytes: seq<Byte>) | Widen(value: nat)

  /** `all` with the bytes from `at` on overwritten. */
  function Put(all: seq<Byte>, at: nat, bytes: seq<Byte>): (r: seq<Byte>)
    requires at + |bytes| <= |all|
    ensures |r| == |all|
  {
    all[..at] + bytes + all[at + |bytes|..]
  }

  /** Adjacent writes are one write. */
  lemma PutNext(out: seq<Byte>, a: nat, x: seq<Byte>, y: seq<Byte>)
    requires a + |x| + |y| <= |out|
    ensures Put(Put(out, a, x), a + |x|, y) == Put(out, a, x + y)
  {
  }

  function EditTime(b: Node, delta: nat): TimeEdit
    requires b.head <= |b.all|
  {
    var body := b.all[b.head..];
    if |body| < 4 then Refuse
    else if body[0] == 1 && |body| >= 12 then
      Keep(Put(b.all, b.head + 4, BE(8, (FromBE(body[4..12]) + delta) % TwoTo64)))
    else if body[0] == 0 && |body| >= 8 then
      var value := (FromBE(body[4..8]) + delta) % TwoTo64;
      if value <= MaxU32 then Keep(Put(b.all, b.head + 4, BE(4, value)))
      else if b.head == 8 && |body| == 8 then Widen(value)
      else Refuse
    else Refuse
  }

  function EditTraf(t: Node, delta: nat): TimeEdit
    requires forall c | c in t.kids :: c.head <= |c.all|
  {
    var b := Find(t.kids, "tfdt");
    if b.None? then Refuse else EditTime(b.value, delta)
  }

  ghost predicate Headed(nodes: seq<Node>) {
    forall c | c in nodes :: c.head <= |c.all| && (c.name == "traf" ==> forall d | d in c.kids :: d.head <= |d.all|)
  }

  /** The widenings of the first `i` children of a fragment at `at`, or None when one is refused. */
  function Widenings(m: Node, i: nat, at: nat, delta: nat): Option<seq<Widening>>
    requires i <= |m.kids| && Headed(m.kids)
  {
    if i == 0 then Some([])
    else
      var before, t := Widenings(m, i - 1, at, delta), m.kids[i - 1];
      if before.None? then None
      else if t.name != "traf" then before
      else
        match EditTraf(t, delta)
        case Refuse => None
        case Keep(_) => before
        case Widen(value) => Some(before.value + [Widening(at + KidAt(m, i - 1) + KidAt(t, IndexOf(t.kids, "tfdt")), value)])
  }

  /** A traf child after the time edit: only the first decode time box changes. */
  function TimedKid(t: Node, k: nat, delta: nat): (r: seq<Byte>)
    requires k < |t.kids| && forall c | c in t.kids :: c.head <= |c.all|
    ensures |r| == |t.kids[k].all|
  {
    if k == IndexOf(t.kids, "tfdt") && EditTraf(t, delta).Keep? then EditTraf(t, delta).bytes else t.kids[k].all
  }

  // ---- offsets

  /** `widenings_before`. */
  function CountBefore(ws: seq<Widening>, target: int): nat {
    if ws == [] then 0
    else CountBefore(ws[..|ws| - 1], target) + if ws[|ws| - 1].at < target then 1 else 0
  }

  /** A trun: its data offset, when it has one, moves with its target. */
  function EditTrun(c: Node, part: seq<Byte>, at: nat, ws: seq<Widening>): Option<seq<Byte>>
    requires c.head <= |c.all| == |part|
  {
    var body := part[c.head..];
    if |body| < 8 then None
    else if !HasBit(Flags(body), 0) then Some(part)
    else if |body| < 12 then None
    else
      var offset := Signed32(FromBE(body[8..12]));
      if at + offset < 0 then None
      else
        var shifted := offset + 4 * CountBefore(ws, at + offset);
        if shifted > 0x7FFF_FFFF then None else Some(Put(part, c.head + 8, BE(4, Unsigned32(shifted))))
  }

  /** Where the entries of a saio body start, how wide and how many they are. */
  function SaioLayout(body: seq<Byte>): Option<(nat, nat, nat)> {
    if |body| < 8 then None
    else
      var cursor := if HasBit(Flags(body), 0) then 12 else 4;
      if cursor + 4 > |body| then None
      else
        var count, width := FromBE(body[cursor..cursor + 4]), if body[0] == 0 then 4 else 8;
        if (|body| - cursor - 4) / width < count then None else Some((cursor + 4, width, count))
  }

  function ShiftEntry(offset: nat, width: nat, at: nat, ws: seq<Widening>): Option<nat> {
    var shifted := (offset + 4 * CountBefore(ws, (at + offset) % TwoTo64)) % TwoTo64;
    if width == 4 && shifted > MaxU32 then None else Some(shifted)
  }

  /** The first `i` entries moved; None when one no longer fits. */
  function ShiftEntries(entries: seq<Byte>, width: nat, i: nat, at: nat, ws: seq<Widening>): (r: Option<seq<Byte>>)
    requires width > 0 && width * i <= |entries|
    ensures r.Some? ==> |r.value| == width * i
  {
    if i == 0 then Some([])
    else
      var before := ShiftEntries(entries, width, i - 1, at, ws);
      var shifted := ShiftEntry(FromBE(entries[width * (i - 1)..width * i]), width, at, ws);
      if before.None? || shifted.None? then None else Some(before.value + BE(width, shifted.value))
  }

  function EditSaio(c: Node, part: seq<Byte>, at: nat, ws: seq<Widening>): Option<seq<Byte>>
    requires c.head <= |c.all| == |part|
  {
    match SaioLayout(part[c.head..])
    case None => None
    case Some((start, width, count)) =>
      SaioFits(part[c.head..]);
      var entries := part[c.head + start..];
      match ShiftEntries(entries, width, count, at, ws)
      case None => None
      case Some(shifted) => Some(Put(part, c.head + start, shifted))
  }

  lemma SaioFits(body: seq<Byte>)
    requires SaioLayout(body).Some?
    ensures var (start, width, count) := SaioLayout(body).value;
      start <= |body| && (width == 4 || width == 8) && width * count <= |body| - start
  {
  }

  // ---- fragments

  /** One child of a traf after the same-length edits; offsets move only when the fragment widens. */
  function KidBytes(t: Node, k: nat, at: nat, delta: nat, ws: seq<Widening>): (r: Option<seq<Byte>>)
    requires k < |t.kids| && forall c | c in t.kids :: c.head <= |c.all|
    ensures r.Some? ==> |r.value| == |t.kids[k].all|
  {
    var c, part := t.kids[k], TimedKid(t, k, delta);
    if ws != [] && c.name == "trun" then EditTrun(c, part, at, ws)
    else if ws != [] && c.name == "saio" then
      (match EditSaio(c, part, at, ws) case None => None case Some(r) => Some(r))
    else Some(part)
  }

  function KidsBytes(t: Node, k: nat, at: nat, delta: nat, ws: seq<Widening>): (r: Option<seq<Byte>>)
    requires k <= |t.kids| && forall c | c in t.kids :: c.head <= |c.all|
    ensures r.Some? ==> |r.value| == |Flat(t.kids[..k])|
  {
    if k == 0 then Some([])
    else
      var before, last := KidsBytes(t, k - 1, at, delta, ws), KidBytes(t, k - 1, at, delta, ws);
      assert t.kids[..k][..k - 1] == t.kids[..k - 1];
      if before.None? || last.None? then None else Some(before.value + last.value)
  }

  /** The offsets of this traf are relative to the fragment. */
  predicate MoofRelative(t: Node, trafs: nat)
    requires forall c | c in t.kids :: c.head <= |c.all|
  {
    var tfhd := Find(t.kids, "tfhd");
    tfhd.Some? && |tfhd.value.all| >= tfhd.value.head + 4 &&
    var flags := Flags(tfhd.value.all[tfhd.value.head..]);
    !HasBit(flags, 0) && (HasBit(flags, 17) || trafs <= 1)
  }

  function CountWithin(ws: seq<Widening>, low: nat, high: nat): nat {
    if ws == [] then 0
    else
      var w := ws[|ws| - 1];
      CountWithin(ws[..|ws| - 1], low, high) + if low <= w.at < high then 1 else 0
  }

  function Tail(n: Node): seq<Byte>
    requires n.head + |Flat(n.kids)| <= |n.all|
  {
    n.all[n.head + |Flat(n.kids)|..]
  }

  ghost predicate Holds(n: Node) {
    n.head >= 8 && n.head + |Flat(n.kids)| <= |n.all| && forall c | c in n.kids :: c.head <= |c.all|
  }

  /** A header whose size grows by four bytes for each widening inside. */
  function GrownHead(n: Node, widened: nat): seq<Byte>
    requires n.head <= |n.all| && 8 <= |n.all|
  {
    BE(4, (|n.all| + 4 * widened) % TwoTo32) + n.all[4..8]
  }

  /** A traf at `trafAt` in a fragment at `at` with `trafs` trafs. */
  function TrafBytes(t: Node, trafAt: nat, trafs: nat, at: nat, delta: nat, ws: seq<Widening>): (r: Option<seq<Byte>>)
    requires Holds(t)
    ensures r.Some? ==> |r.value| == |t.all|
  {
    assert t.kids[..|t.kids|] == t.kids;
    var kids := KidsBytes(t, |t.kids|, at, delta, ws);
    if kids.None? then None
    else if ws == [] then Some(t.all[..t.head] + kids.value + Tail(t))
    else if t.head != 8 || !MoofRelative(t, trafs) then None
    else Some(GrownHead(t, CountWithin(ws, trafAt, trafAt + |t.all|)) + kids.value + Tail(t))
  }

  ghost predicate Fragment(m: Node) {
    Holds(m) && Headed(m.kids) && forall t | t in m.kids && t.name == "traf" :: Holds(t)
  }

  function MoofKids(m: Node, i: nat, at: nat, delta: nat, ws: seq<Widening>): (r: Option<seq<Byte>>)
    requires i <= |m.kids| && Fragment(m)
    ensures r.Some? ==> |r.value| == |Flat(m.kids[..i])|
  {
    if i == 0 then Some([])
    else
      var before, t := MoofKids(m, i - 1, at, delta, ws), m.kids[i - 1];
      assert m.kids[..i][..i - 1] == m.kids[..i - 1];
      var last := if t.name == "traf" then TrafBytes(t, at + KidAt(m, i - 1), CountTrafs(m.kids), at, delta, ws)
                  else Some(t.all);
      if before.None? || last.None? then None else Some(before.value + last.value)
  }

  /** A fragment at `at`: its bytes before insertion, and its widenings. */
  function MoofBytes(m: Node, at: nat, delta: nat): (r: Option<(seq<Byte>, seq<Widening>)>)
    requires Fragment(m)
    ensures r.Some? ==> |r.value.0| == |m.all|
  {
    assert m.kids[..|m.kids|] == m.kids;
    var ws := Widenings(m, |m.kids|, at, delta);
    if ws.None? || (ws.value != [] && m.head != 8) then None
    else
      var kids := MoofKids(m, |m.kids|, at, delta, ws.value);
      if kids.None? then None
      else Some(((if ws.value == [] then m.all[..m.head] else GrownHead(m, |ws.value|)) + kids.value + Tail(m), ws.value))
  }

  ghost predicate Fragments(nodes: seq<Node>) {
    forall m | m in nodes && m.name == "moof" :: Fragment(m)
  }

  /** The first `i` top-level boxes. */
  function TopBytes(nodes: seq<Node>, i: nat, delta: nat): (r: Option<(seq<Byte>, seq<Widening>)>)
    requires i <= |nodes| && Fragments(nodes)
    ensures r.Some? ==> |r.value.0| == |Flat(nodes[..i])|
  {
    if i == 0 then Some(([], []))
    else
      var before, m := TopBytes(nodes, i - 1, delta), nodes[i - 1];
      assert nodes[..i][..i - 1] == nodes[..i - 1];
      var last := if m.name == "moof" then MoofBytes(m, |Flat(nodes[..i - 1])|, delta) else Some((m.all, []));
      if before.None? || last.None? then None
      else Some((before.value.0 + last.value.0, before.value.1 + last.value.1))
  }

  // ---- insertion

  /** The sixteen bytes of a version 0 decode time box as the twenty of version 1. */
  function WideBox(b: seq<Byte>, value: nat): seq<Byte>
    requires |b| == 16
  {
    BE(4, 20) + b[4..8] + [1] + b[9..12] + BE(8, value)
  }

  /** Widenings in order, each a whole box inside the range. */
  ghost predicate Spaced(ws: seq<Widening>, low: nat, high: nat) {
    low <= high && (forall w | w in ws :: low <= w.at && w.at + 16 <= high) &&
    forall i, j | 0 <= i < j < |ws| :: ws[i].at + 16 <= ws[j].at
  }

  /** Bytes starting at `base`, with every widening's box replaced. */
  ghost function Grow(s: seq<Byte>, base: nat, ws: seq<Widening>): seq<Byte>
    requires Spaced(ws, base, base + |s|)
    decreases |ws|
  {
    if ws == [] then s
    else
      var w := ws[|ws| - 1];
      var p := w.at - base;
      assert w in ws;
      Grow(s[..p], base, ws[..|ws| - 1]) + WideBox(s[p..p + 16], w.value) + s[p + 16..]
  }

  lemma SpacedFurther(ws: seq<Widening>, low: nat, high: nat, more: nat)
    requires Spaced(ws, low, high) && high <= more
    ensures Spaced(ws, low, more)
  {
  }

  lemma GrowPrefix(a: seq<Byte>, b: seq<Byte>, base: nat, ws: seq<Widening>)
    requires Spaced(ws, base, base + |a|)
    ensures Spaced(ws, base, base + |a + b|) && Grow(a + b, base, ws) == Grow(a, base, ws) + b
  {
    hide WideBox, Grow, Spaced;
    SpacedFurther(ws, base, base + |a|, base + |a + b|);
    if ws == [] {
      GrowNothing(a, base);
      GrowNothing(a + b, base);
    } else {
      GrowLast(a, base, ws);
      GrowLast(a + b, base, ws);
      var p := ws[|ws| - 1].at - base;
      assert (a + b)[..p] == a[..p] && (a + b)[p..p + 16] == a[p..p + 16] && (a + b)[p + 16..] == a[p + 16..] + b;
    }
  }

  lemma SpacedConcat(wa: seq<Widening>, wb: seq<Widening>, low: nat, mid: nat, high: nat)
    requires Spaced(wa, low, mid) && Spaced(wb, mid, high)
    ensures Spaced(wa + wb, low, high)
  {
    var ws := wa + wb;
    forall i, j | 0 <= i < j < |ws|
      ensures ws[i].at + 16 <= ws[j].at
    {
      if i < |wa| <= j {
        assert wa[i] in wa && wb[j - |wa|] in wb;
      }
    }
  }

  lemma {:induction false} GrowConcat(a: seq<Byte>, b: seq<Byte>, base: nat, wa: seq<Widening>, wb: seq<Widening>)
    requires Spaced(wa, base, base + |a|) && Spaced(wb, base + |a|, base + |a| + |b|)
    ensures Spaced(wa + wb, base, base + |a + b|)
    ensures Grow(a + b, base, wa + wb) == Grow(a, base, wa) + Grow(b, base + |a|, wb)
    decreases |wb|
  {
    hide Grow, WideBox, Spaced;
    SpacedConcat(wa, wb, base, base + |a|, base + |a| + |b|);
    if wb == [] {
      assert wa + wb == wa;
      GrowPrefix(a, b, base, wa);
      GrowNothing(b, base + |a|);
    } else {
      var n, w := |wb| - 1, wb[|wb| - 1];
      var p := w.at - base - |a|;
      assert (wa + wb)[..|wa + wb| - 1] == wa + wb[..n];
      FrontSpaced(wb, base + |a|, base + |a| + |b|);
      GrowLast(b, base + |a|, wb);
      GrowLast(a + b, base, wa + wb);
      SlicesOfConcat(a, b, p, p + 16);
      GrowConcat(a, b[..p], base, wa, wb[..n]);
      Regroup(Grow(a, base, wa), Grow(b[..p], base + |a|, wb[..n]), WideBox(b[p..p + 16], w.value), b[p + 16..]);
    }
  }

  lemma GrowNothing(s: seq<Byte>, base: nat)
    requires Spaced([], base, base + |s|)
    ensures Grow(s, base, []) == s
  {
  }

  lemma GrowLast(s: seq<Byte>, base: nat, ws: seq<Widening>)
    requires Spaced(ws, base, base + |s|) && ws != []
    ensures var w := ws[|ws| - 1];
      var p := w.at - base;
      0 <= p && p + 16 <= |s| && Spaced(ws[..|ws| - 1], base, base + p) &&
      Grow(s, base, ws) == Grow(s[..p], base, ws[..|ws| - 1]) + WideBox(s[p..p + 16], w.value) + s[p + 16..]
  {
    hide WideBox;
    assert ws[|ws| - 1] in ws;
    FrontSpaced(ws, base, base + |s|);
  }

  lemma SlicesOfConcat<T>(a: seq<T>, b: seq<T>, i: nat, j: nat)
    requires i <= j <= |b|
    ensures (a + b)[..|a| + i] == a + b[..i] && (a + b)[|a| + i..|a| + j] == b[i..j] && (a + b)[|a| + j..] == b[j..]
  {
  }

  lemma Regroup<T>(a: seq<T>, b: seq<T>, c: seq<T>, d: seq<T>)
    ensures a + b + c + d == a + (b + c + d)
  {
  }

  lemma FrontSpaced(ws: seq<Widening>, low: nat, high: nat)
    requires Spaced(ws, low, high) && ws != []
    ensures Spaced(ws[..|ws| - 1], low, ws[|ws| - 1].at)
  {
    var n := |ws| - 1;
    assert ws[n] in ws;
    forall w | w in ws[..n]
      ensures low <= w.at && w.at + 16 <= ws[n].at
    {
      var i :| 0 <= i < n && ws[i] == w;
    }
  }

  // ---- the whole payload

  lemma BuiltHolds(n: Node) returns (tail: seq<Byte>)
    requires Built(n) && IsContainer(n.name)
    ensures Holds(n) && Ranged(n.kids, tail) && Tail(n) == tail && n.all == n.all[..n.head] + Flat(n.kids) + tail
  {
    hide Parse, Flat, Stated, ToTheEnd, FromBE;
    tail := ParseTiles(n.all[n.head..]);
    assert n.all == n.all[..n.head] + n.all[n.head..];
    forall c | c in n.kids
      ensures c.head <= |c.all| && Built(c)
    {
      var i :| 0 <= i < |n.kids| && n.kids[i] == c;
      assert Placed(n.kids[i], i == |n.kids| - 1 && tail == []);
    }
    assert n.all[n.head..][|Flat(n.kids)|..] == Tail(n);
  }

  lemma KidsBuilt(n: Node)
    requires Built(n) && IsContainer(n.name)
    ensures forall c | c in n.kids :: Built(c)
  {
    hide Parse, Flat, Built, Stated, ToTheEnd, FromBE;
    var tail := BuiltHolds(n);
    forall c | c in n.kids
      ensures Built(c)
    {
      var i :| 0 <= i < |n.kids| && n.kids[i] == c;
      assert Placed(n.kids[i], i == |n.kids| - 1 && tail == []);
    }
  }

  lemma BuiltFragment(m: Node)
    requires Built(m) && m.name == "moof"
    ensures Fragment(m)
  {
    hide Parse, Flat, Built;
    KidsBuilt(m);
    var _ := BuiltHolds(m);
    forall t | t in m.kids && t.name == "traf"
      ensures Holds(t)
    {
      var _ := BuiltHolds(t);
    }
  }

  lemma ParsedBuilt(s: seq<Byte>)
    requires Parse(s).Some?
    ensures Fragments(Parse(s).value) && forall n | n in Parse(s).value :: Built(n)
    ensures |Flat(Parse(s).value)| <= |s|
  {
    hide Parse, Flat, Built, Stated, ToTheEnd, FromBE;
    var nodes := Parse(s).value;
    var tail := ParseTiles(s);
    forall n | n in nodes
      ensures Built(n) && (n.name == "moof" ==> Fragment(n))
    {
      var i :| 0 <= i < |nodes| && nodes[i] == n;
      assert Placed(nodes[i], i == |nodes| - 1 && tail == []);
      if n.name == "moof" {
        BuiltFragment(n);
      }
    }
  }

  predicate SomeTraf(nodes: seq<Node>) {
    exists m | m in nodes :: m.name == "moof" && exists t | t in m.kids :: t.name == "traf"
  }

  // ---- where the widenings are

  function TrafWidenings(t: Node, trafAt: nat, delta: nat): seq<Widening>
    requires forall c | c in t.kids :: c.head <= |c.all|
  {
    if EditTraf(t, delta).Widen? then [Widening(trafAt + KidAt(t, IndexOf(t.kids, "tfdt")), EditTraf(t, delta).value)] else []
  }

  lemma FlatStep(nodes: seq<Node>, i: nat)
    requires i < |nodes|
    ensures Flat(nodes[..i + 1]) == Flat(nodes[..i]) + nodes[i].all
  {
    assert nodes[..i + 1][..i] == nodes[..i];
  }

  lemma {:induction false} FlatGrows(nodes: seq<Node>, i: nat)
    requires i <= |nodes|
    ensures |Flat(nodes[..i])| <= |Flat(nodes)|
    decreases |nodes| - i
  {
    if i < |nodes| {
      FlatStep(nodes, i);
      FlatGrows(nodes, i + 1);
    } else {
      assert nodes[..i] == nodes;
    }
  }

  lemma WidenIsShort(t: Node, delta: nat)
    requires Holds(t) && EditTraf(t, delta).Widen?
    ensures var k := IndexOf(t.kids, "tfdt");
      k < |t.kids| && t.kids[k].head == 8 && |t.kids[k].all| == 16 && t.kids[k].name == "tfdt"
    ensures MaxU32 < EditTraf(t, delta).value < TwoTo64
  {
    hide FromBE, BE;
  }

  lemma TrafSpaced(t: Node, trafAt: nat, delta: nat)
    requires Holds(t)
    ensures Spaced(TrafWidenings(t, trafAt, delta), trafAt + t.head, trafAt + |t.all|)
  {
    hide FromBE, BE, Flat;
    if EditTraf(t, delta).Widen? {
      WidenIsShort(t, delta);
      var k := IndexOf(t.kids, "tfdt");
      FlatStep(t.kids, k);
      FlatGrows(t.kids, k + 1);
    }
  }

  lemma SpacedWider(ws: seq<Widening>, low: nat, high: nat, low': nat, high': nat)
    requires Spaced(ws, low, high) && low' <= low && high <= high'
    ensures Spaced(ws, low', high')
  {
  }

  lemma WideningsStep(m: Node, i: nat, at: nat, delta: nat)
    requires Fragment(m) && i < |m.kids| && Widenings(m, i + 1, at, delta).Some?
    ensures Widenings(m, i, at, delta).Some?
    ensures m.kids[i].name == "traf" ==> !EditTraf(m.kids[i], delta).Refuse?
    ensures Widenings(m, i + 1, at, delta).value == Widenings(m, i, at, delta).value +
      if m.kids[i].name == "traf" then TrafWidenings(m.kids[i], at + KidAt(m, i), delta) else []
  {
    hide Flat, EditTraf;
  }

  lemma {:induction false} WideningsSpaced(m: Node, i: nat, at: nat, delta: nat)
    requires Fragment(m) && i <= |m.kids| && Widenings(m, i, at, delta).Some?
    ensures Spaced(Widenings(m, i, at, delta).value, at + m.head, at + KidAt(m, i))
  {
    hide Flat, TrafWidenings, Widenings, EditTraf;
    if i == 0 {
      NoWidenings(m, at, delta);
    } else {
      var low, mid, high := at + m.head, at + KidAt(m, i - 1), at + KidAt(m, i);
      WideningsStep(m, i - 1, at, delta);
      WideningsSpaced(m, i - 1, at, delta);
      FlatStep(m.kids, i - 1);
      var t := m.kids[i - 1];
      if t.name == "traf" {
        TrafSpaced(t, mid, delta);
        SpacedWider(TrafWidenings(t, mid, delta), mid + t.head, high, mid, high);
        SpacedConcat(Widenings(m, i - 1, at, delta).value, TrafWidenings(t, mid, delta), low, mid, high);
      } else {
        assert Widenings(m, i - 1, at, delta).value + [] == Widenings(m, i - 1, at, delta).value;
        SpacedWider(Widenings(m, i - 1, at, delta).value, low, mid, low, high);
      }
    }
  }

  lemma NoWidenings(m: Node, at: nat, delta: nat)
    requires Fragment(m)
    ensures Widenings(m, 0, at, delta) == Some([]) && Flat(m.kids[..0]) == []
  {
  }

  lemma MoofSpaced(m: Node, at: nat, delta: nat)
    requires Fragment(m) && MoofBytes(m, at, delta).Some?
    ensures Spaced(MoofBytes(m, at, delta).value.1, at, at + |m.all|)
  {
    hide Flat, Widenings, MoofKids, GrownHead;
    WideningsSpaced(m, |m.kids|, at, delta);
    assert m.kids[..|m.kids|] == m.kids;
    SpacedWider(MoofBytes(m, at, delta).value.1, at + m.head, at + KidAt(m, |m.kids|), at, at + |m.all|);
  }

  /** The widenings a top-level box contributes. */
  function BoxBytes(nodes: seq<Node>, i: nat, delta: nat): Option<(seq<Byte>, seq<Widening>)>
    requires i < |nodes| && Fragments(nodes)
  {
    if nodes[i].name == "moof" then MoofBytes(nodes[i], |Flat(nodes[..i])|, delta) else Some((nodes[i].all, []))
  }

  lemma TopStep(nodes: seq<Node>, i: nat, delta: nat)
    requires i < |nodes| && Fragments(nodes) && TopBytes(nodes, i + 1, delta).Some?
    ensures TopBytes(nodes, i, delta).Some? && BoxBytes(nodes, i, delta).Some?
    ensures var (before, last) := (TopBytes(nodes, i, delta).value, BoxBytes(nodes, i, delta).value);
      TopBytes(nodes, i + 1, delta).value == (before.0 + last.0, before.1 + last.1) &&
      |last.0| == |nodes[i].all| && |before.0| == |Flat(nodes[..i])| &&
      Spaced(last.1, |Flat(nodes[..i])|, |Flat(nodes[..i])| + |nodes[i].all|)
  {
    hide Flat, MoofBytes;
    if nodes[i].name == "moof" {
      MoofSpaced(nodes[i], |Flat(nodes[..i])|, delta);
    }
  }

  lemma {:induction false} TopSpaced(nodes: seq<Node>, i: nat, delta: nat)
    requires i <= |nodes| && Fragments(nodes) && TopBytes(nodes, i, delta).Some?
    ensures Spaced(TopBytes(nodes, i, delta).value.1, 0, |Flat(nodes[..i])|)
  {
    hide Flat, TopBytes, BoxBytes, Spaced, Fragment;
    if i == 0 {
      TopNothing(nodes, delta);
    } else {
      TopStep(nodes, i - 1, delta);
      TopSpaced(nodes, i - 1, delta);
      FlatStep(nodes, i - 1);
      SpacedConcat(TopBytes(nodes, i - 1, delta).value.1, BoxBytes(nodes, i - 1, delta).value.1, 0,
                   |Flat(nodes[..i - 1])|, |Flat(nodes[..i])|);
    }
  }

  lemma TopNothing(nodes: seq<Node>, delta: nat)
    requires Fragments(nodes)
    ensures TopBytes(nodes, 0, delta) == Some(([], [])) && Flat(nodes[..0]) == [] && Spaced([], 0, 0)
  {
  }

  lemma AllSpaced(nodes: seq<Node>, delta: nat, high: nat)
    requires Fragments(nodes) && TopBytes(nodes, |nodes|, delta).Some? && |Flat(nodes)| <= high
    ensures Spaced(TopBytes(nodes, |nodes|, delta).value.1, 0, high)
  {
    hide Flat, TopBytes;
    assert nodes[..|nodes|] == nodes;
    TopSpaced(nodes, |nodes|, delta);
    SpacedWider(TopBytes(nodes, |nodes|, delta).value.1, 0, |Flat(nodes)|, 0, high);
  }

  /** `rebase_cmaf_timestamps`: the new payload, or None when it returns false. */
  ghost function Rebase(payload: seq<Byte>, delta: nat): Option<seq<Byte>> {
    match Parse(payload)
    case None => None
    case Some(nodes) =>
      ParsedBuilt(payload);
      assert nodes[..|nodes|] == nodes;
      if TopBytes(nodes, |nodes|, delta).None? || !SomeTraf(nodes) then None
      else
        var (bytes, ws) := TopBytes(nodes, |nodes|, delta).value;
        AllSpaced(nodes, delta, |payload|);
        Some(Grow(bytes + payload[|Flat(nodes)|..], 0, ws))
  }
}
