/**
 * The numbers in a rebased payload: every decode time is raised by the delta,
 * every data and auxiliary information offset names the byte it named before.
 */
module CmafRebaseValues {
  import opened Bytes
  import opened Mp4Boxes
  import opened CmafRebase
  import opened CmafRebaseTree

  // ---- decode times

  /** The decode time a tfdt box states. */
  function DecodeTime(b: Node): Option<nat>
    requires b.head <= |b.all|
  {
    var body := b.all[b.head..];
    if |body| >= 12 && body[0] == 1 then Some(FromBE(body[4..12]))
    else if |body| >= 8 && body[0] == 0 then Some(FromBE(body[4..8]))
    else None
  }

  lemma PutField(b: Node, at: nat, bytes: seq<Byte>)
    requires b.head <= |b.all| && at + |bytes| <= |b.all| - b.head
    ensures var r := Put(b.all, b.head + at, bytes)[b.head..];
      |r| == |b.all| - b.head && r[at..at + |bytes|] == bytes && forall i | 0 <= i < at :: r[i] == b.all[b.head..][i]
  {
  }

  lemma KeptTime(b: Node, delta: nat)
    requires b.head <= |b.all| && EditTime(b, delta).Keep?
    ensures DecodeTime(b).Some? &&
      DecodeTime(Node(b.name, b.head, EditTime(b, delta).bytes, b.kids)) == Some((DecodeTime(b).value + delta) % TwoTo64)
  {
    hide BE, FromBE, Put;
    var body := b.all[b.head..];
    Pow256Values();
    if body[0] == 1 {
      var time := (FromBE(body[4..12]) + delta) % TwoTo64;
      PutField(b, 4, BE(8, time));
      ReadBackBE(8, time);
    } else {
      var time := (FromBE(body[4..8]) + delta) % TwoTo64;
      PutField(b, 4, BE(4, time));
      ReadBackBE(4, time);
    }
  }

  lemma WidenedTime(b: Node, delta: nat)
    requires b.head <= |b.all| && EditTime(b, delta).Widen?
    ensures |b.all| == 16 && DecodeTime(b).Some? && EditTime(b, delta).value == (DecodeTime(b).value + delta) % TwoTo64
    ensures DecodeTime(Node("tfdt", 8, WideBox(b.all, EditTime(b, delta).value), [])) == Some(EditTime(b, delta).value)
  {
    hide BE, FromBE, WideBox;
    var value := EditTime(b, delta).value;
    WideParts(b.all, value);
    Pow256Values();
    ReadBackBE(8, value);
    var body := WideBox(b.all, value)[8..];
    SliceOfDrop(WideBox(b.all, value), 8, 4, 12);
    assert body[0] == 1 && body[4..12] == WideBox(b.all, value)[12..20];
  }

  function TrafTime(t: Node): Option<nat>
    requires forall c | c in t.kids :: c.head <= |c.all|
  {
    var b := Find(t.kids, "tfdt");
    if b.None? then None else DecodeTime(b.value)
  }

  lemma FinalNames(t: Node, at: nat, delta: nat, ws: seq<Widening>)
    requires KidsFit(t, |t.kids|, at, delta, ws)
    ensures var kids := FinalKids(t, at, delta, ws);
      |kids| == |t.kids| && IndexOf(kids, "tfdt") == IndexOf(t.kids, "tfdt") &&
      (forall k | 0 <= k < |kids| :: kids[k].name == t.kids[k].name) && forall c | c in kids :: c.head <= |c.all|
  {
    hide Flat, KidBytes, EditTime, WideBox;
    var kids := FinalKids(t, at, delta, ws);
    forall k | 0 <= k < |kids|
      ensures kids[k].name == t.kids[k].name && kids[k].head <= |kids[k].all|
    {
      if k == IndexOf(t.kids, "tfdt") && EditTraf(t, delta).Widen? {
        WidenIsShort(t, delta);
        WideParts(t.kids[k].all, EditTraf(t, delta).value);
      }
    }
    SameIndex(kids, t.kids, "tfdt");
  }

  /** The decode time of a traf goes up by the delta, widened or not. */
  lemma TrafTimeRaised(t: Node, trafAt: nat, at: nat, delta: nat, ws: seq<Widening>)
    requires KidsFit(t, |t.kids|, at, delta, ws) && !EditTraf(t, delta).Refuse?
    ensures var final := FinalTraf(t, trafAt, at, delta, ws);
      (forall c | c in final.kids :: c.head <= |c.all|) && TrafTime(t).Some? &&
      TrafTime(final) == Some((TrafTime(t).value + delta) % TwoTo64)
  {
    hide Flat, WideBox, EditTime, TrafHead, DecodeTime;
    FinalNames(t, at, delta, ws);
    var k := IndexOf(t.kids, "tfdt");
    var kids := FinalKids(t, at, delta, ws);
    assert kids[k] == FinalKid(t, k, at, delta, ws);
    if EditTraf(t, delta).Widen? {
      WidenedTime(t.kids[k], delta);
    } else {
      KeptTime(t.kids[k], delta);
    }
  }

  // ---- data offsets

  function DataOffset(c: Node): Option<int>
    requires c.head <= |c.all|
  {
    var body := c.all[c.head..];
    if |body| < 12 || !HasBit(Flags(body), 0) then None else Some(Signed32(FromBE(body[8..12])))
  }

  lemma SignedRoundTrip(x: int)
    requires -0x8000_0000 <= x <= 0x7FFF_FFFF
    ensures Unsigned32(x) < TwoTo32 && Signed32(Unsigned32(x)) == x
  {
  }

  lemma {:induction false} CountIsBounded(ws: seq<Widening>, target: int)
    ensures CountBefore(ws, target) <= |ws|
  {
    if ws != [] {
      CountIsBounded(ws[..|ws| - 1], target);
    }
  }

  /** An edited trun: its offset moves by the widenings before its target, all else stays. */
  lemma TrunMoved(c: Node, at: nat, ws: seq<Widening>)
    requires c.head <= |c.all| && EditTrun(c, c.all, at, ws).Some? && DataOffset(c).Some?
    ensures var moved, d := Node(c.name, c.head, EditTrun(c, c.all, at, ws).value, c.kids), DataOffset(c).value;
      DataOffset(moved) == Some(d + 4 * CountBefore(ws, at + d)) && 0 <= at + d &&
      moved.all == Put(c.all, c.head + 8, moved.all[c.head + 8..c.head + 12])
  {
    hide BE, FromBE, Put, CountBefore, HasBit;
    var body, d := c.all[c.head..], DataOffset(c).value;
    Pow256Values();
    FromBEBound(body[8..12]);
    var shifted := d + 4 * CountBefore(ws, at + d);
    SignedRoundTrip(shifted);
    PutField(c, 8, BE(4, Unsigned32(shifted)));
    ReadBackBE(4, Unsigned32(shifted));
    var r := Put(c.all, c.head + 8, BE(4, Unsigned32(shifted)))[c.head..];
    assert r[1..4] == body[1..4];
    PutSlices(c.all, c.head + 8, BE(4, Unsigned32(shifted)));
  }

  // ---- auxiliary information offsets

  function Entry(c: Node, n: nat): nat
    requires c.head <= |c.all| && SaioLayout(c.all[c.head..]).Some? && n < SaioLayout(c.all[c.head..]).value.2
  {
    var (start, width, count) := SaioLayout(c.all[c.head..]).value;
    SaioFits(c.all[c.head..]);
    EntryInside(width, n, count);
    FromBE(c.all[c.head + start..][width * n..width * (n + 1)])
  }

  lemma EntryInside(width: nat, n: nat, count: nat)
    requires n < count
    ensures 0 <= width * n && width * (n + 1) <= width * count && width * (n + 1) == width * n + width
  {
  }

  lemma {:induction false} ShiftedEntry(entries: seq<Byte>, width: nat, i: nat, at: nat, ws: seq<Widening>, n: nat)
    requires (width == 4 || width == 8) && width * i <= |entries| && ShiftEntries(entries, width, i, at, ws).Some? && n < i
    ensures 0 <= width * n && width * (n + 1) <= width * i
    ensures var shifted := ShiftEntry(FromBE(entries[width * n..width * (n + 1)]), width, at, ws);
      shifted.Some? && FromBE(ShiftEntries(entries, width, i, at, ws).value[width * n..width * (n + 1)]) == shifted.value
    decreases i
  {
    hide BE, FromBE, CountBefore;
    EntryInside(width, n, i);
    var all := ShiftEntries(entries, width, i, at, ws).value;
    var before := ShiftEntries(entries, width, i - 1, at, ws).value;
    var last := ShiftEntry(FromBE(entries[width * (i - 1)..width * i]), width, at, ws).value;
    if n == i - 1 {
      Pow256Values();
      assert all[width * n..width * (n + 1)] == BE(width, last);
      ReadBackBE(width, last);
    } else {
      ShiftedEntry(entries, width, i - 1, at, ws, n);
      assert all[width * n..width * (n + 1)] == before[width * n..width * (n + 1)];
    }
  }

  lemma LayoutPrefix(a: seq<Byte>, b: seq<Byte>)
    requires SaioLayout(a).Some? && |a| == |b| && forall i | 0 <= i < SaioLayout(a).value.0 :: a[i] == b[i]
    ensures SaioLayout(b) == SaioLayout(a)
  {
    hide FromBE, HasBit;
    assert a[1..4] == b[1..4];
    var cursor := if HasBit(Flags(a), 0) then 12 else 4;
    assert a[cursor..cursor + 4] == b[cursor..cursor + 4];
  }

  lemma SliceOfPrefix(s: seq<Byte>, prefix: seq<Byte>, i: nat, j: nat)
    requires |prefix| <= |s| && s[..|prefix|] == prefix && i <= j <= |prefix|
    ensures s[i..j] == prefix[i..j]
  {
    assert s[..|prefix|][i..j] == s[i..j];
  }

  /** An edited saio: the same layout, and each entry moves by the widenings before its target. */
  lemma SaioMoved(c: Node, at: nat, ws: seq<Widening>, n: nat)
    requires c.head <= |c.all| && EditSaio(c, c.all, at, ws).Some? && n < SaioLayout(c.all[c.head..]).value.2
    ensures var moved := Node(c.name, c.head, EditSaio(c, c.all, at, ws).value, c.kids);
      moved.head <= |moved.all| && SaioLayout(moved.all[c.head..]) == SaioLayout(c.all[c.head..]) &&
      Entry(moved, n) == (Entry(c, n) + 4 * CountBefore(ws, (at + Entry(c, n)) % TwoTo64)) % TwoTo64
  {
    hide BE, FromBE, CountBefore, SaioLayout, ShiftEntries, EditSaio;
    SaioEdited(c, at, ws);
    var (start, width, count) := SaioLayout(c.all[c.head..]).value;
    SaioFits(c.all[c.head..]);
    var shifted := ShiftEntries(c.all[c.head + start..], width, count, at, ws).value;
    ShiftedEntry(c.all[c.head + start..], width, count, at, ws, n);
    EntryInside(width, n, count);
    SliceOfPrefix(EditSaio(c, c.all, at, ws).value[c.head + start..], shifted, width * n, width * (n + 1));
  }

  lemma SaioEdited(c: Node, at: nat, ws: seq<Widening>)
    requires c.head <= |c.all| && EditSaio(c, c.all, at, ws).Some?
    ensures SaioLayout(c.all[c.head..]).Some?
    ensures var (start, width, count), moved := SaioLayout(c.all[c.head..]).value, EditSaio(c, c.all, at, ws).value;
      (width == 4 || width == 8) && start <= |c.all| - c.head && width * count <= |c.all| - c.head - start &&
      |moved| == |c.all| && SaioLayout(moved[c.head..]) == SaioLayout(c.all[c.head..]) &&
      ShiftEntries(c.all[c.head + start..], width, count, at, ws).Some? &&
      ShiftEntries(c.all[c.head + start..], width, count, at, ws).value <= moved[c.head + start..]
  {
    hide BE, FromBE, CountBefore, SaioLayout, Put, ShiftEntries;
    var body := c.all[c.head..];
    var (start, width, count) := SaioLayout(body).value;
    SaioFits(body);
    var shifted := ShiftEntries(c.all[c.head + start..], width, count, at, ws).value;
    PutSlices(c.all, c.head + start, shifted);
    PutField(c, start, shifted);
    var moved := Put(c.all, c.head + start, shifted);
    LayoutPrefix(body, moved[c.head..]);
    SliceOfDrop(moved, c.head + start, 0, |shifted|);
  }
}
