/**
 * What a rebased payload parses to: the same tree of boxes, with the decode
 * times raised and the offsets moved.
 */
module CmafRebaseTree {
  import opened Bytes
  import opened Mp4Boxes
  import opened CmafRebase

  // ---- one box

  lemma PutSlices(all: seq<Byte>, at: nat, bytes: seq<Byte>)
    requires at + |bytes| <= |all|
    ensures Put(all, at, bytes)[..at] == all[..at] && Put(all, at, bytes)[at..at + |bytes|] == bytes
    ensures Put(all, at, bytes)[at + |bytes|..] == all[at + |bytes|..]
  {
  }

  /** An edit behind the header leaves a leaf box well built under the same header. */
  lemma LeafRebuilt(c: Node, part: seq<Byte>)
    requires Built(c) && !IsContainer(c.name) && |part| == |c.all| && part[..c.head] == c.all[..c.head]
    ensures Rebuilt(c, Node(c.name, c.head, part, c.kids)) || !(Stated(c) || ToTheEnd(c))
  {
    hide FromBE;
    assert forall i | 0 <= i < c.head :: part[i] == part[..c.head][i] == c.all[..c.head][i] == c.all[i];
    assert part[..4] == c.all[..4] && part[4..8] == c.all[4..8];
    if c.head == 16 {
      assert part[8..16] == c.all[8..16];
    }
  }

  lemma PutKeepsHead(all: seq<Byte>, head: nat, at: nat, bytes: seq<Byte>)
    requires head <= at && at + |bytes| <= |all|
    ensures Put(all, at, bytes)[..head] == all[..head]
  {
  }

  lemma TimeKeepsHead(b: Node, delta: nat)
    requires b.head <= |b.all| && EditTime(b, delta).Keep?
    ensures |EditTime(b, delta).bytes| == |b.all| && EditTime(b, delta).bytes[..b.head] == b.all[..b.head]
  {
    hide FromBE, BE;
  }

  lemma KidKeepsHead(t: Node, k: nat, at: nat, delta: nat, ws: seq<Widening>)
    requires Holds(t) && k < |t.kids| && KidBytes(t, k, at, delta, ws).Some?
    ensures KidBytes(t, k, at, delta, ws).value[..t.kids[k].head] == t.kids[k].all[..t.kids[k].head]
  {
    hide FromBE, BE, EditTime, SaioLayout, ShiftEntries, Flat;
    var c, part := t.kids[k], TimedKid(t, k, delta);
    if k == IndexOf(t.kids, "tfdt") && EditTraf(t, delta).Keep? {
      TimeKeepsHead(c, delta);
    }
    if ws != [] && c.name == "saio" {
      SaioKeepsHead(c, part, at, ws);
    }
  }

  lemma SaioKeepsHead(c: Node, part: seq<Byte>, at: nat, ws: seq<Widening>)
    requires c.head <= |c.all| == |part| && EditSaio(c, part, at, ws).Some?
    ensures EditSaio(c, part, at, ws).value[..c.head] == part[..c.head]
  {
    hide SaioLayout, ShiftEntries;
    SaioFits(part[c.head..]);
  }

  // ---- a traf

  /** A child of a traf in the result. */
  function FinalKid(t: Node, k: nat, at: nat, delta: nat, ws: seq<Widening>): Node
    requires Holds(t) && k < |t.kids| && KidBytes(t, k, at, delta, ws).Some?
  {
    if k == IndexOf(t.kids, "tfdt") && EditTraf(t, delta).Widen? then
      WidenIsShort(t, delta);
      Node("tfdt", 8, WideBox(t.kids[k].all, EditTraf(t, delta).value), [])
    else Node(t.kids[k].name, t.kids[k].head, KidBytes(t, k, at, delta, ws).value, t.kids[k].kids)
  }

  ghost predicate KidsFit(t: Node, i: nat, at: nat, delta: nat, ws: seq<Widening>) {
    Holds(t) && i <= |t.kids| && forall k | 0 <= k < i :: KidBytes(t, k, at, delta, ws).Some?
  }

  lemma {:induction false} KidsFitFrom(t: Node, i: nat, at: nat, delta: nat, ws: seq<Widening>)
    requires Holds(t) && i <= |t.kids| && KidsBytes(t, i, at, delta, ws).Some?
    ensures KidsFit(t, i, at, delta, ws)
  {
    hide KidBytes, Flat;
    if i > 0 {
      KidsFitFrom(t, i - 1, at, delta, ws);
    }
  }

  function FinalKids(t: Node, at: nat, delta: nat, ws: seq<Widening>): seq<Node>
    requires KidsFit(t, |t.kids|, at, delta, ws)
  {
    seq(|t.kids|, k requires 0 <= k < |t.kids| => FinalKid(t, k, at, delta, ws))
  }

  lemma WideBuilt(b: seq<Byte>, value: nat)
    requires |b| == 16 && Name(b[4..8]) == "tfdt"
    ensures Built(Node("tfdt", 8, WideBox(b, value), [])) && Stated(Node("tfdt", 8, WideBox(b, value), []))
  {
    hide WideBox, BE, FromBE, Name, Parse;
    WideParts(b, value);
    Pow256Values();
    ReadBackBE(4, 20);
  }

  lemma WideParts(b: seq<Byte>, value: nat)
    requires |b| == 16
    ensures var w := WideBox(b, value);
      |w| == 20 && w[..4] == BE(4, 20) && w[4..8] == b[4..8] && w[8] == 1 && w[12..20] == BE(8, value)
  {
    hide BE;
  }

  lemma FinalKidRebuilt(t: Node, k: nat, at: nat, delta: nat, ws: seq<Widening>)
    requires Holds(t) && k < |t.kids| && KidBytes(t, k, at, delta, ws).Some?
    requires Built(t.kids[k]) && (Stated(t.kids[k]) || ToTheEnd(t.kids[k]))
    ensures Rebuilt(t.kids[k], FinalKid(t, k, at, delta, ws))
  {
    hide Built, Stated, ToTheEnd, Flat, FromBE, BE, KidBytes, EditTraf, WideBox;
    var c := t.kids[k];
    if k == IndexOf(t.kids, "tfdt") && EditTraf(t, delta).Widen? {
      WidenIsShort(t, delta);
      BuiltName(c);
      WideBuilt(c.all, EditTraf(t, delta).value);
    } else {
      KidKeepsHead(t, k, at, delta, ws);
      if IsContainer(c.name) {
        ContainerKid(t, k, at, delta, ws);
      } else {
        LeafRebuilt(c, KidBytes(t, k, at, delta, ws).value);
      }
    }
  }

  lemma BuiltName(c: Node)
    requires Built(c)
    ensures |c.all| >= 8 && c.name == Name(c.all[4..8])
  {
  }

  lemma ContainerKid(t: Node, k: nat, at: nat, delta: nat, ws: seq<Widening>)
    requires Holds(t) && k < |t.kids| && KidBytes(t, k, at, delta, ws).Some? && IsContainer(t.kids[k].name)
    ensures KidBytes(t, k, at, delta, ws).value == t.kids[k].all
  {
    hide Flat, FromBE, BE, EditTime;
  }

  /** The insertion turns the edited children into the final ones. */
  lemma {:induction false} KidsGrown(t: Node, i: nat, trafAt: nat, at: nat, delta: nat, ws: seq<Widening>)
    requires Holds(t) && i <= |t.kids| && KidsBytes(t, i, at, delta, ws).Some? && KidsFit(t, |t.kids|, at, delta, ws)
    ensures var bytes := KidsBytes(t, i, at, delta, ws).value;
      var own := if IndexOf(t.kids, "tfdt") < i then TrafWidenings(t, trafAt, delta) else [];
      Spaced(own, trafAt + t.head, trafAt + t.head + |bytes|) &&
      Grow(bytes, trafAt + t.head, own) == Flat(FinalKids(t, at, delta, ws)[..i])
    decreases i
  {
    hide KidBytes, Grow, Flat, WideBox, Spaced, EditTraf, FinalKid;
    var base := trafAt + t.head;
    var final := FinalKids(t, at, delta, ws);
    if i == 0 {
      NothingYet(base, final);
    } else {
      var before, last := KidsBytes(t, i - 1, at, delta, ws).value, KidBytes(t, i - 1, at, delta, ws).value;
      KidsGrown(t, i - 1, trafAt, at, delta, ws);
      FlatStep(final, i - 1);
      var k := IndexOf(t.kids, "tfdt");
      var all := TrafWidenings(t, trafAt, delta);
      var own := if k < i - 1 then all else [];
      var here := if k == i - 1 then all else [];
      KidGrown(t, i - 1, trafAt, at, delta, ws, |before|);
      GrowConcat(before, last, base, own, here);
      assert own + here == (if k < i then all else []) by {
        assert all + [] == all && [] + all == all;
      }
    }
  }

  lemma NothingYet(base: nat, final: seq<Node>)
    ensures Spaced([], base, base) && Grow([], base, []) == [] && Flat(final[..0]) == []
  {
  }

  lemma KidGrown(t: Node, k: nat, trafAt: nat, at: nat, delta: nat, ws: seq<Widening>, offset: nat)
    requires Holds(t) && k < |t.kids| && KidBytes(t, k, at, delta, ws).Some? && offset == |Flat(t.kids[..k])|
    ensures var base := trafAt + t.head + offset;
      var here := if IndexOf(t.kids, "tfdt") == k then TrafWidenings(t, trafAt, delta) else [];
      var part := KidBytes(t, k, at, delta, ws).value;
      Spaced(here, base, base + |part|) && Grow(part, base, here) == FinalKid(t, k, at, delta, ws).all
  {
    hide KidBytes, Flat, WideBox, EditTraf;
    var base := trafAt + t.head + offset;
    var part := KidBytes(t, k, at, delta, ws).value;
    if k == IndexOf(t.kids, "tfdt") && EditTraf(t, delta).Widen? {
      WidenIsShort(t, delta);
      WidenedPart(t, k, at, delta, ws);
      var w := Widening(base, EditTraf(t, delta).value);
      assert TrafWidenings(t, trafAt, delta) == [w];
      assert [w][..0] == [] && part[..0] == [] && part[0..16] == part && part[16..] == [];
      GrowNothing(part[..0], base);
      assert [] + WideBox(part, w.value) + [] == WideBox(part, w.value);
    }
  }

  lemma WidenedPart(t: Node, k: nat, at: nat, delta: nat, ws: seq<Widening>)
    requires Holds(t) && k < |t.kids| && KidBytes(t, k, at, delta, ws).Some?
    requires k == IndexOf(t.kids, "tfdt") && EditTraf(t, delta).Widen?
    ensures KidBytes(t, k, at, delta, ws).value == t.kids[k].all
  {
    hide EditTraf, Flat;
  }

  lemma {:induction false} GrowLength(s: seq<Byte>, base: nat, ws: seq<Widening>)
    requires Spaced(ws, base, base + |s|)
    ensures |Grow(s, base, ws)| == |s| + 4 * |ws|
    decreases |ws|
  {
    if ws == [] {
      GrowNothing(s, base);
    } else {
      hide Grow, Spaced;
      GrowLast(s, base, ws);
      GrowLength(s[..ws[|ws| - 1].at - base], base, ws[..|ws| - 1]);
    }
  }

  /** A header, grown contents and a tail, as one range. */
  lemma GrowContainer(head: seq<Byte>, kids: seq<Byte>, tail: seq<Byte>, base: nat, ws: seq<Widening>)
    requires Spaced(ws, base + |head|, base + |head| + |kids|)
    ensures Spaced(ws, base, base + |head + kids + tail|)
    ensures Grow(head + kids + tail, base, ws) == head + Grow(kids, base + |head|, ws) + tail
  {
    hide Grow;
    assert Spaced([], base, base + |head|);
    GrowNothing(head, base);
    assert [] + ws == ws;
    GrowConcat(head, kids, base, [], ws);
    GrowPrefix(head + kids, tail, base, ws);
  }

  function TrafHead(t: Node, trafAt: nat, ws: seq<Widening>): seq<Byte>
    requires Holds(t)
  {
    if ws == [] then t.all[..t.head] else GrownHead(t, CountWithin(ws, trafAt, trafAt + |t.all|))
  }

  function FinalTraf(t: Node, trafAt: nat, at: nat, delta: nat, ws: seq<Widening>): Node
    requires KidsFit(t, |t.kids|, at, delta, ws)
  {
    var kids := FinalKids(t, at, delta, ws);
    Node(t.name, t.head, TrafHead(t, trafAt, ws) + Flat(kids) + Tail(t), kids)
  }

  lemma TrafFits(t: Node, trafAt: nat, trafs: nat, at: nat, delta: nat, ws: seq<Widening>)
    requires Holds(t) && TrafBytes(t, trafAt, trafs, at, delta, ws).Some?
    ensures KidsBytes(t, |t.kids|, at, delta, ws).Some? && KidsFit(t, |t.kids|, at, delta, ws) && (ws != [] ==> t.head == 8)
    ensures TrafBytes(t, trafAt, trafs, at, delta, ws).value ==
      TrafHead(t, trafAt, ws) + KidsBytes(t, |t.kids|, at, delta, ws).value + Tail(t)
    ensures |TrafHead(t, trafAt, ws)| == t.head
  {
    hide KidsBytes, Flat, MoofRelative;
    KidsFitFrom(t, |t.kids|, at, delta, ws);
  }

  lemma TrafGrown(t: Node, trafAt: nat, trafs: nat, at: nat, delta: nat, ws: seq<Widening>, bytes: seq<Byte>,
                  own: seq<Widening>)
    requires Holds(t) && TrafBytes(t, trafAt, trafs, at, delta, ws) == Some(bytes) && !EditTraf(t, delta).Refuse?
    requires own == TrafWidenings(t, trafAt, delta)
    ensures KidsFit(t, |t.kids|, at, delta, ws)
    ensures Spaced(own, trafAt, trafAt + |bytes|) && Grow(bytes, trafAt, own) == FinalTraf(t, trafAt, at, delta, ws).all
    ensures |FinalTraf(t, trafAt, at, delta, ws).all| == |t.all| + 4 * |own|
  {
    hide KidsBytes, Flat, Grow, TrafBytes, TrafHead, TrafWidenings, EditTime, FinalKids, Spaced;
    TrafFits(t, trafAt, trafs, at, delta, ws);
    var kids := KidsBytes(t, |t.kids|, at, delta, ws).value;
    var final := FinalKids(t, at, delta, ws);
    KidsGrown(t, |t.kids|, trafAt, at, delta, ws);
    FinalCount(t, at, delta, ws);
    assert final[..|t.kids|] == final;
    GrowContainer(TrafHead(t, trafAt, ws), kids, Tail(t), trafAt, own);
    GrowLength(TrafBytes(t, trafAt, trafs, at, delta, ws).value, trafAt, own);
  }

  lemma FinalCount(t: Node, at: nat, delta: nat, ws: seq<Widening>)
    requires KidsFit(t, |t.kids|, at, delta, ws)
    ensures |FinalKids(t, at, delta, ws)| == |t.kids|
  {
  }

  /** A container with rebuilt children under the same header, or a compact one that states the new size. */
  lemma ContainerRebuilt(n: Node, kids: seq<Node>, head: seq<Byte>, tail: seq<Byte>)
    requires Built(n) && (Stated(n) || ToTheEnd(n)) && IsContainer(n.name) && |kids| == |n.kids|
    requires Ranged(n.kids, tail) && forall i | 0 <= i < |kids| :: Rebuilt(n.kids[i], kids[i])
    requires var size := |head + Flat(kids) + tail|;
      (head == n.all[..n.head] && size == |n.all|) ||
      (n.head == 8 && head == BE(4, size) + n.all[4..8] && 8 <= size <= MaxU32)
    ensures Rebuilt(n, Node(n.name, n.head, head + Flat(kids) + tail, kids))
  {
    hide Parse, Flat, BE, FromBE, Rebuilt;
    RebuiltRanged(n.kids, kids, tail);
    Reparse(kids, tail);
    var all := head + Flat(kids) + tail;
    assert |head| == n.head;
    assert all[n.head..] == Flat(kids) + tail && all[..n.head] == head;
    if head == n.all[..n.head] && |all| == |n.all| {
      SameHeader(n, all);
    } else {
      assert all[..4] == BE(4, |all|) && all[4..8] == n.all[4..8];
      Pow256Values();
      ReadBackBE(4, |all|);
    }
    HeaderDecides(n, Node(n.name, n.head, all, kids));
  }

  lemma SameHeader(n: Node, all: seq<Byte>)
    requires Built(n) && |all| == |n.all| && all[..n.head] == n.all[..n.head]
    ensures all[..4] == n.all[..4] && all[4..8] == n.all[4..8] && (n.head == 16 ==> all[8..16] == n.all[8..16])
  {
    assert forall i | 0 <= i < n.head :: all[i] == all[..n.head][i] == n.all[..n.head][i] == n.all[i];
  }

  lemma HeaderDecides(n: Node, m: Node)
    requires Built(n) && (Stated(n) || ToTheEnd(n)) && m.name == n.name && m.head == n.head && 8 <= |m.all|
    requires IsContainer(n.name) && m.head <= |m.all| && Parse(m.all[m.head..]) == Some(m.kids) && m.all[4..8] == n.all[4..8]
    requires (|m.all| == |n.all| && m.all[..4] == n.all[..4] && (n.head == 16 ==> m.all[8..16] == n.all[8..16])) ||
      (n.head == 8 && FromBE(m.all[..4]) == |m.all|)
    ensures Rebuilt(n, m)
  {
    hide FromBE, Parse;
  }

  lemma FinalKidsRebuilt(t: Node, at: nat, delta: nat, ws: seq<Widening>, tail: seq<Byte>)
    requires Built(t) && t.name == "traf" && Holds(t) && KidsFit(t, |t.kids|, at, delta, ws)
    requires Ranged(t.kids, tail) && !EditTraf(t, delta).Refuse?
    ensures |FinalKids(t, at, delta, ws)| == |t.kids|
    ensures forall i | 0 <= i < |t.kids| :: Rebuilt(t.kids[i], FinalKids(t, at, delta, ws)[i])
  {
    hide Parse, Flat, Rebuilt, Built, Stated, ToTheEnd, KidBytes, EditTime, FinalKid;
    KidsBuilt(t);
    forall i | 0 <= i < |t.kids|
      ensures Rebuilt(t.kids[i], FinalKids(t, at, delta, ws)[i])
    {
      assert Placed(t.kids[i], i == |t.kids| - 1 && tail == []);
      FinalKidRebuilt(t, i, at, delta, ws);
    }
  }

  lemma TrafRebuilt(t: Node, trafAt: nat, trafs: nat, at: nat, delta: nat, ws: seq<Widening>)
    requires Built(t) && (Stated(t) || ToTheEnd(t)) && t.name == "traf" && Holds(t)
    requires TrafBytes(t, trafAt, trafs, at, delta, ws).Some? && !EditTraf(t, delta).Refuse?
    requires if ws == [] then TrafWidenings(t, trafAt, delta) == []
      else CountWithin(ws, trafAt, trafAt + |t.all|) == |TrafWidenings(t, trafAt, delta)| &&
           |t.all| + 4 * |TrafWidenings(t, trafAt, delta)| <= MaxU32
    ensures KidsFit(t, |t.kids|, at, delta, ws) && Rebuilt(t, FinalTraf(t, trafAt, at, delta, ws))
  {
    hide Parse, Flat, BE, FromBE, Rebuilt, Built, Stated, ToTheEnd, KidBytes, KidsBytes, EditTime, TrafBytes, TrafWidenings,
      FinalKid;
    TrafFits(t, trafAt, trafs, at, delta, ws);
    var tail := BuiltHolds(t);
    var kids := FinalKids(t, at, delta, ws);
    FinalKidsRebuilt(t, at, delta, ws, tail);
    TrafGrown(t, trafAt, trafs, at, delta, ws, TrafBytes(t, trafAt, trafs, at, delta, ws).value,
              TrafWidenings(t, trafAt, delta));
    ContainerRebuilt(t, kids, TrafHead(t, trafAt, ws), tail);
  }

  // ---- a fragment

  lemma {:induction false} CountSplit(a: seq<Widening>, b: seq<Widening>, low: nat, high: nat)
    ensures CountWithin(a + b, low, high) == CountWithin(a, low, high) + CountWithin(b, low, high)
  {
    if b == [] {
      assert a + b == a;
    } else {
      assert (a + b)[..|a + b| - 1] == a + b[..|b| - 1];
      CountSplit(a, b[..|b| - 1], low, high);
    }
  }

  lemma {:induction false} CountOutside(ws: seq<Widening>, low: nat, high: nat, from: nat, to: nat)
    requires Spaced(ws, from, to) && (to <= low || high <= from)
    ensures CountWithin(ws, low, high) == 0
    decreases |ws|
  {
    if ws != [] {
      assert ws[|ws| - 1] in ws;
      FrontSpaced(ws, from, to);
      CountOutside(ws[..|ws| - 1], low, high, from, ws[|ws| - 1].at);
    }
  }

  lemma {:induction false} CountInside(ws: seq<Widening>, low: nat, high: nat)
    requires Spaced(ws, low, high)
    ensures CountWithin(ws, low, high) == |ws|
    decreases |ws|
  {
    if ws != [] {
      assert ws[|ws| - 1] in ws;
      FrontSpaced(ws, low, high);
      SpacedWider(ws[..|ws| - 1], low, ws[|ws| - 1].at, low, high);
      CountInside(ws[..|ws| - 1], low, high);
    }
  }

  /** Each traf counts exactly its own widening. */
  lemma {:induction false} OwnCount(m: Node, j: nat, i: nat, at: nat, delta: nat)
    requires Fragment(m) && j < i <= |m.kids| && m.kids[j].name == "traf" && Widenings(m, i, at, delta).Some?
    ensures var trafAt := at + KidAt(m, j);
      CountWithin(Widenings(m, i, at, delta).value, trafAt, trafAt + |m.kids[j].all|) ==
      |TrafWidenings(m.kids[j], trafAt, delta)|
    decreases i
  {
    hide Flat, Widenings, TrafWidenings, CountWithin, Spaced;
    var trafAt := at + KidAt(m, j);
    var t := m.kids[j];
    WideningsStep(m, i - 1, at, delta);
    var before := Widenings(m, i - 1, at, delta).value;
    FlatStep(m.kids, j);
    if i - 1 == j {
      WideningsSpaced(m, j, at, delta);
      TrafSpaced(t, trafAt, delta);
      SpacedWider(TrafWidenings(t, trafAt, delta), trafAt + t.head, trafAt + |t.all|, trafAt, trafAt + |t.all|);
      CountSplit(before, TrafWidenings(t, trafAt, delta), trafAt, trafAt + |t.all|);
      CountOutside(before, trafAt, trafAt + |t.all|, at + m.head, trafAt);
      CountInside(TrafWidenings(t, trafAt, delta), trafAt, trafAt + |t.all|);
    } else {
      OwnCount(m, j, i - 1, at, delta);
      var u, uAt := m.kids[i - 1], at + KidAt(m, i - 1);
      if u.name == "traf" {
        LaterKid(m, j, i - 1);
        TrafSpaced(u, uAt, delta);
        CountSplit(before, TrafWidenings(u, uAt, delta), trafAt, trafAt + |t.all|);
        CountOutside(TrafWidenings(u, uAt, delta), trafAt, trafAt + |t.all|, uAt + u.head, uAt + |u.all|);
      } else {
        assert before + [] == before;
      }
    }
  }

  lemma {:induction false} LaterKid(m: Node, j: nat, i: nat)
    requires j < i <= |m.kids|
    ensures KidAt(m, j) + |m.kids[j].all| <= KidAt(m, i)
    decreases i
  {
    hide Flat;
    FlatStep(m.kids, i - 1);
    if j < i - 1 {
      LaterKid(m, j, i - 1);
    }
  }

  ghost predicate Trafs(m: Node, i: nat, at: nat, delta: nat, ws: seq<Widening>) {
    Fragment(m) && i <= |m.kids| &&
    forall j | 0 <= j < i && m.kids[j].name == "traf" ::
      TrafBytes(m.kids[j], at + KidAt(m, j), CountTrafs(m.kids), at, delta, ws).Some? && !EditTraf(m.kids[j], delta).Refuse? &&
      KidsFit(m.kids[j], |m.kids[j].kids|, at, delta, ws)
  }

  lemma {:induction false} TrafsFrom(m: Node, i: nat, at: nat, delta: nat, ws: seq<Widening>)
    requires Fragment(m) && i <= |m.kids| && MoofKids(m, i, at, delta, ws).Some? && Widenings(m, i, at, delta).Some?
    ensures Trafs(m, i, at, delta, ws)
    decreases i
  {
    hide Flat, TrafBytes, EditTraf, Widenings, KidsFit;
    if i > 0 {
      WideningsStep(m, i - 1, at, delta);
      TrafsFrom(m, i - 1, at, delta, ws);
      var t := m.kids[i - 1];
      if t.name == "traf" {
        TrafFits(t, at + KidAt(m, i - 1), CountTrafs(m.kids), at, delta, ws);
      }
    }
  }

  function FinalChild(m: Node, j: nat, at: nat, delta: nat, ws: seq<Widening>): Node
    requires Trafs(m, |m.kids|, at, delta, ws) && j < |m.kids|
  {
    if m.kids[j].name == "traf" then FinalTraf(m.kids[j], at + KidAt(m, j), at, delta, ws) else m.kids[j]
  }

  function FinalChildren(m: Node, at: nat, delta: nat, ws: seq<Widening>): seq<Node>
    requires Trafs(m, |m.kids|, at, delta, ws)
  {
    seq(|m.kids|, j requires 0 <= j < |m.kids| => FinalChild(m, j, at, delta, ws))
  }

  lemma {:induction false} ChildrenGrown(m: Node, i: nat, at: nat, delta: nat, ws: seq<Widening>)
    requires Trafs(m, |m.kids|, at, delta, ws) && i <= |m.kids|
    requires MoofKids(m, i, at, delta, ws).Some? && Widenings(m, i, at, delta).Some?
    ensures var bytes, own := MoofKids(m, i, at, delta, ws).value, Widenings(m, i, at, delta).value;
      Spaced(own, at + m.head, at + m.head + |bytes|) &&
      Grow(bytes, at + m.head, own) == Flat(FinalChildren(m, at, delta, ws)[..i])
    decreases i
  {
    hide Flat, Widenings, TrafWidenings, TrafBytes, EditTraf, Grow, Spaced, FinalTraf;
    var final := FinalChildren(m, at, delta, ws);
    if i == 0 {
      NoWidenings(m, at, delta);
      NothingYet(at + m.head, final);
    } else {
      var t, tAt := m.kids[i - 1], at + KidAt(m, i - 1);
      WideningsStep(m, i - 1, at, delta);
      ChildrenGrown(m, i - 1, at, delta, ws);
      FlatStep(final, i - 1);
      var before, own := MoofKids(m, i - 1, at, delta, ws).value, Widenings(m, i - 1, at, delta).value;
      if t.name == "traf" {
        TrafGrown(t, tAt, CountTrafs(m.kids), at, delta, ws,
                  TrafBytes(t, tAt, CountTrafs(m.kids), at, delta, ws).value, TrafWidenings(t, tAt, delta));
        GrowConcat(before, TrafBytes(t, tAt, CountTrafs(m.kids), at, delta, ws).value, at + m.head, own,
                   TrafWidenings(t, tAt, delta));
      } else {
        assert own + [] == own;
        GrowPrefix(before, t.all, at + m.head, own);
      }
    }
  }

  function FinalMoof(m: Node, at: nat, delta: nat, ws: seq<Widening>): Node
    requires Trafs(m, |m.kids|, at, delta, ws)
  {
    var kids := FinalChildren(m, at, delta, ws);
    Node(m.name, m.head, (if ws == [] then m.all[..m.head] else GrownHead(m, |ws|)) + Flat(kids) + Tail(m), kids)
  }

  lemma MoofFits(m: Node, at: nat, delta: nat)
    requires Fragment(m) && MoofBytes(m, at, delta).Some?
    ensures var (bytes, ws) := MoofBytes(m, at, delta).value;
      Widenings(m, |m.kids|, at, delta) == Some(ws) && Trafs(m, |m.kids|, at, delta, ws) && (ws != [] ==> m.head == 8) &&
      MoofKids(m, |m.kids|, at, delta, ws).Some? &&
      bytes == (if ws == [] then m.all[..m.head] else GrownHead(m, |ws|)) +
        MoofKids(m, |m.kids|, at, delta, ws).value + Tail(m)
  {
    hide Flat, Widenings, MoofKids, Trafs;
    TrafsFrom(m, |m.kids|, at, delta, Widenings(m, |m.kids|, at, delta).value);
  }

  lemma MoofGrown(m: Node, at: nat, delta: nat)
    requires Fragment(m) && MoofBytes(m, at, delta).Some?
    ensures var (bytes, ws) := MoofBytes(m, at, delta).value;
      Trafs(m, |m.kids|, at, delta, ws) && Spaced(ws, at, at + |bytes|) &&
      Grow(bytes, at, ws) == FinalMoof(m, at, delta, ws).all &&
      |FinalMoof(m, at, delta, ws).all| == |m.all| + 4 * |ws|
  {
    hide Flat, Widenings, MoofKids, Trafs, Grow, Spaced, FinalChildren, MoofBytes;
    var (bytes, ws) := MoofBytes(m, at, delta).value;
    MoofFits(m, at, delta);
    ChildrenGrown(m, |m.kids|, at, delta, ws);
    ChildCount(m, at, delta, ws);
    var head := if ws == [] then m.all[..m.head] else GrownHead(m, |ws|);
    var final := FinalChildren(m, at, delta, ws);
    assert final[..|m.kids|] == final;
    GrowContainer(head, MoofKids(m, |m.kids|, at, delta, ws).value, Tail(m), at, ws);
    GrowLength(bytes, at, ws);
  }

  lemma ChildCount(m: Node, at: nat, delta: nat, ws: seq<Widening>)
    requires Trafs(m, |m.kids|, at, delta, ws)
    ensures |FinalChildren(m, at, delta, ws)| == |m.kids|
  {
  }

  lemma {:induction false} CountBound(ws: seq<Widening>, low: nat, high: nat)
    ensures CountWithin(ws, low, high) <= |ws|
  {
    if ws != [] {
      CountBound(ws[..|ws| - 1], low, high);
    }
  }

  lemma MoofRebuilt(m: Node, at: nat, delta: nat)
    requires Built(m) && (Stated(m) || ToTheEnd(m)) && m.name == "moof" && Fragment(m) && MoofBytes(m, at, delta).Some?
    requires |m.all| + 4 * |MoofBytes(m, at, delta).value.1| <= MaxU32
    ensures var ws := MoofBytes(m, at, delta).value.1;
      Trafs(m, |m.kids|, at, delta, ws) && Rebuilt(m, FinalMoof(m, at, delta, ws))
  {
    hide Parse, Flat, BE, FromBE, Rebuilt, Built, Stated, ToTheEnd, MoofBytes, MoofKids, Widenings, TrafBytes, EditTraf,
      FinalTraf, KidsFit, CountWithin;
    var (bytes, ws) := MoofBytes(m, at, delta).value;
    MoofFits(m, at, delta);
    var tail := BuiltHolds(m);
    KidsBuilt(m);
    var kids := FinalChildren(m, at, delta, ws);
    forall j | 0 <= j < |kids|
      ensures Rebuilt(m.kids[j], kids[j])
    {
      assert Placed(m.kids[j], j == |m.kids| - 1 && tail == []);
      ChildRebuilt(m, j, at, delta, ws, tail);
    }
    MoofGrown(m, at, delta);
    ContainerRebuilt(m, kids, if ws == [] then m.all[..m.head] else GrownHead(m, |ws|), tail);
  }

  lemma ChildRebuilt(m: Node, j: nat, at: nat, delta: nat, ws: seq<Widening>, tail: seq<Byte>)
    requires Trafs(m, |m.kids|, at, delta, ws) && j < |m.kids| && Widenings(m, |m.kids|, at, delta) == Some(ws)
    requires Built(m.kids[j]) && (Stated(m.kids[j]) || ToTheEnd(m.kids[j])) && |m.all| + 4 * |ws| <= MaxU32
    ensures Rebuilt(m.kids[j], FinalChild(m, j, at, delta, ws))
  {
    hide Parse, Flat, BE, FromBE, Built, Stated, ToTheEnd, Widenings, TrafBytes, EditTraf, FinalTraf, KidsFit,
      TrafWidenings;
    var t, trafAt := m.kids[j], at + KidAt(m, j);
    if t.name == "traf" {
      OwnCount(m, j, |m.kids|, at, delta);
      CountBound(ws, trafAt, trafAt + |t.all|);
      LaterKid(m, j, |m.kids|);
      assert m.kids[..|m.kids|] == m.kids;
      assert |t.all| <= |m.all|;
      TrafRebuilt(t, trafAt, CountTrafs(m.kids), at, delta, ws);
    }
  }

  // ---- the payload

  ghost predicate Moofs(nodes: seq<Node>, i: nat, delta: nat) {
    Fragments(nodes) && i <= |nodes| &&
    forall j | 0 <= j < i && nodes[j].name == "moof" ::
      MoofBytes(nodes[j], |Flat(nodes[..j])|, delta).Some? &&
      Trafs(nodes[j], |nodes[j].kids|, |Flat(nodes[..j])|, delta, MoofBytes(nodes[j], |Flat(nodes[..j])|, delta).value.1)
  }

  lemma {:induction false} MoofsFrom(nodes: seq<Node>, i: nat, delta: nat)
    requires Fragments(nodes) && i <= |nodes| && TopBytes(nodes, i, delta).Some?
    ensures Moofs(nodes, i, delta)
  {
    hide Flat, MoofBytes, Trafs;
    if i > 0 {
      TopStep(nodes, i - 1, delta);
      MoofsFrom(nodes, i - 1, delta);
      if nodes[i - 1].name == "moof" {
        MoofFits(nodes[i - 1], |Flat(nodes[..i - 1])|, delta);
      }
    }
  }

  function FinalBox(nodes: seq<Node>, i: nat, delta: nat): Node
    requires Moofs(nodes, |nodes|, delta) && i < |nodes|
  {
    if nodes[i].name == "moof" then
      FinalMoof(nodes[i], |Flat(nodes[..i])|, delta, MoofBytes(nodes[i], |Flat(nodes[..i])|, delta).value.1)
    else nodes[i]
  }

  function FinalBoxes(nodes: seq<Node>, delta: nat): seq<Node>
    requires Moofs(nodes, |nodes|, delta)
  {
    seq(|nodes|, i requires 0 <= i < |nodes| => FinalBox(nodes, i, delta))
  }

  lemma {:induction false} TopGrown(nodes: seq<Node>, i: nat, delta: nat)
    requires Moofs(nodes, |nodes|, delta) && i <= |nodes| && TopBytes(nodes, i, delta).Some?
    ensures var (bytes, ws) := TopBytes(nodes, i, delta).value;
      Spaced(ws, 0, |bytes|) && Grow(bytes, 0, ws) == Flat(FinalBoxes(nodes, delta)[..i])
  {
    hide Flat, MoofBytes, Trafs, TopBytes, Grow, Spaced, FinalMoof;
    var final := FinalBoxes(nodes, delta);
    if i == 0 {
      TopNothing(nodes, delta);
      NothingYet(0, final);
    } else {
      var m, at := nodes[i - 1], |Flat(nodes[..i - 1])|;
      TopStep(nodes, i - 1, delta);
      TopGrown(nodes, i - 1, delta);
      FlatStep(final, i - 1);
      var (before, own) := TopBytes(nodes, i - 1, delta).value;
      if m.name == "moof" {
        MoofGrown(m, at, delta);
        GrowConcat(before, MoofBytes(m, at, delta).value.0, 0, own, MoofBytes(m, at, delta).value.1);
      } else {
        assert own + [] == own;
        GrowPrefix(before, m.all, 0, own);
      }
    }
  }

  lemma ShapePointwise(a: seq<Node>, b: seq<Node>)
    requires |a| == |b| && forall i | 0 <= i < |a| :: a[i].name == b[i].name && Shape(a[i].kids) == Shape(b[i].kids)
    ensures Shape(a) == Shape(b)
  {
  }

  lemma TrafShape(t: Node, trafAt: nat, at: nat, delta: nat, ws: seq<Widening>)
    requires KidsFit(t, |t.kids|, at, delta, ws) && forall c | c in t.kids :: Built(c)
    ensures Shape(FinalTraf(t, trafAt, at, delta, ws).kids) == Shape(t.kids)
  {
    hide Parse, Flat, BE, FromBE, KidBytes, EditTraf, Shape, TrafHead;
    var kids := FinalKids(t, at, delta, ws);
    forall k | 0 <= k < |kids|
      ensures kids[k].name == t.kids[k].name && kids[k].kids == t.kids[k].kids
    {
      assert Built(t.kids[k]);
    }
    ShapePointwise(kids, t.kids);
  }

  lemma MoofShape(m: Node, at: nat, delta: nat, ws: seq<Widening>)
    requires Built(m) && m.name == "moof" && Trafs(m, |m.kids|, at, delta, ws)
    ensures Shape(FinalMoof(m, at, delta, ws).kids) == Shape(m.kids)
  {
    hide Parse, Flat, BE, FromBE, Built, KidsFit, EditTraf, Shape, TrafBytes, FinalTraf;
    KidsBuilt(m);
    var kids := FinalChildren(m, at, delta, ws);
    forall j | 0 <= j < |kids|
      ensures kids[j].name == m.kids[j].name && Shape(kids[j].kids) == Shape(m.kids[j].kids)
    {
      var t := m.kids[j];
      if t.name == "traf" {
        KidsBuilt(t);
        TrafShape(t, at + KidAt(m, j), at, delta, ws);
        TrafName(t, at + KidAt(m, j), at, delta, ws);
      }
    }
    ShapePointwise(kids, m.kids);
  }

  lemma TrafName(t: Node, trafAt: nat, at: nat, delta: nat, ws: seq<Widening>)
    requires KidsFit(t, |t.kids|, at, delta, ws)
    ensures FinalTraf(t, trafAt, at, delta, ws).name == t.name
  {
  }

  /**
   * The result parses, and to a tree of the same shape: box for box the edited
   * ones, every header stating what it now holds.
   */
  lemma RebasedParses(payload: seq<Byte>, delta: nat)
    requires Rebase(payload, delta).Some? && |Rebase(payload, delta).value| <= MaxU32
    ensures var nodes, result := Parse(payload).value, Rebase(payload, delta).value;
      Moofs(nodes, |nodes|, delta) && Parse(result) == Some(FinalBoxes(nodes, delta)) &&
      Shape(FinalBoxes(nodes, delta)) == Shape(nodes) &&
      |result| == |payload| + 4 * |TopBytes(nodes, |nodes|, delta).value.1|
  {
    hide Parse, Flat, BE, FromBE, Built, Stated, ToTheEnd, Rebuilt, TopBytes, MoofBytes, Trafs, Grow, Spaced, FinalMoof,
      SomeTraf, Fragment, Shape;
    var nodes := Parse(payload).value;
    var tail := ParseTiles(payload);
    ParsedBuilt(payload);
    assert nodes[..|nodes|] == nodes;
    assert payload[|Flat(nodes)|..] == tail;
    MoofsFrom(nodes, |nodes|, delta);
    TopGrown(nodes, |nodes|, delta);
    var (bytes, ws) := TopBytes(nodes, |nodes|, delta).value;
    var final := FinalBoxes(nodes, delta);
    assert final[..|nodes|] == final;
    GrowPrefix(bytes, tail, 0, ws);
    GrowLength(bytes, 0, ws);
    forall i | 0 <= i < |nodes|
      ensures Rebuilt(nodes[i], final[i]) && final[i].name == nodes[i].name && Shape(final[i].kids) == Shape(nodes[i].kids)
    {
      assert Placed(nodes[i], i == |nodes| - 1 && tail == []);
      BoxRebuilt(nodes, i, delta, |payload|, tail);
    }
    RebuiltRanged(nodes, final, tail);
    Reparse(final, tail);
    ShapePointwise(final, nodes);
  }

  /** A box has no more widenings than the payload. */
  lemma {:induction false} FewerWidenings(nodes: seq<Node>, i: nat, n: nat, delta: nat)
    requires Fragments(nodes) && i < n <= |nodes| && TopBytes(nodes, n, delta).Some?
    ensures BoxBytes(nodes, i, delta).Some? && |BoxBytes(nodes, i, delta).value.1| <= |TopBytes(nodes, n, delta).value.1|
    decreases n
  {
    hide Flat, TopBytes, BoxBytes, Fragment;
    TopStep(nodes, n - 1, delta);
    if i < n - 1 {
      FewerWidenings(nodes, i, n - 1, delta);
    }
  }

  lemma BoxRebuilt(nodes: seq<Node>, i: nat, delta: nat, size: nat, tail: seq<Byte>)
    requires Moofs(nodes, |nodes|, delta) && i < |nodes| && Placed(nodes[i], i == |nodes| - 1 && tail == [])
    requires TopBytes(nodes, |nodes|, delta).Some? && |Flat(nodes)| <= size
    requires size + 4 * |TopBytes(nodes, |nodes|, delta).value.1| <= MaxU32
    ensures var final := FinalBox(nodes, i, delta);
      Rebuilt(nodes[i], final) && final.name == nodes[i].name && Shape(final.kids) == Shape(nodes[i].kids)
  {
    hide Parse, Flat, BE, FromBE, Built, Stated, ToTheEnd, TopBytes, MoofBytes, Trafs, Shape, Fragment;
    var m, at := nodes[i], |Flat(nodes[..i])|;
    if m.name == "moof" {
      FewerWidenings(nodes, i, |nodes|, delta);
      FlatStep(nodes, i);
      FlatGrows(nodes, i + 1);
      MoofRebuilt(m, at, delta);
      MoofShape(m, at, delta, MoofBytes(m, at, delta).value.1);
    }
  }
}
