/**
 * Where the bytes of a payload go when decode time boxes widen, and when an
 * offset of a fragment still names the byte it named before.
 */
module CmafRebaseOffsets {
  import opened Bytes
  import opened Mp4Boxes
  import opened CmafRebase
  import opened CmafRebaseTree
  import opened CmafRebaseValues

  /** The new position of a byte: four further for each widened box before it. */
  function NewPosition(ws: seq<Widening>, at: nat): nat {
    at + 4 * CountBefore(ws, at)
  }

  ghost predicate OutsideWidened(ws: seq<Widening>, at: nat) {
    forall w | w in ws :: !(w.at <= at < w.at + 16)
  }

  lemma {:induction false} CountAll(ws: seq<Widening>, target: int)
    requires forall w | w in ws :: w.at < target
    ensures CountBefore(ws, target) == |ws|
  {
    if ws != [] {
      assert ws[|ws| - 1] in ws;
      CountAll(ws[..|ws| - 1], target);
    }
  }

  lemma {:induction false} CountNone(ws: seq<Widening>, target: int)
    requires forall w | w in ws :: target <= w.at
    ensures CountBefore(ws, target) == 0
  {
    if ws != [] {
      assert ws[|ws| - 1] in ws;
      CountNone(ws[..|ws| - 1], target);
    }
  }

  lemma {:induction false} CountConcat(a: seq<Widening>, b: seq<Widening>, target: int)
    ensures CountBefore(a + b, target) == CountBefore(a, target) + CountBefore(b, target)
  {
    if b == [] {
      assert a + b == a;
    } else {
      assert (a + b)[..|a + b| - 1] == a + b[..|b| - 1];
      CountConcat(a, b[..|b| - 1], target);
    }
  }

  /** Insertion moves every byte outside the widened boxes to its new position. */
  lemma {:induction false} GrowMoves(s: seq<Byte>, ws: seq<Widening>, at: nat)
    requires Spaced(ws, 0, |s|) && at < |s| && OutsideWidened(ws, at)
    ensures NewPosition(ws, at) < |Grow(s, 0, ws)| && Grow(s, 0, ws)[NewPosition(ws, at)] == s[at]
    decreases |ws|
  {
    if ws == [] {
      GrowNothing(s, 0);
    } else {
      hide Grow, WideBox, Spaced, OutsideWidened, CountBefore;
      var n, w := |ws| - 1, ws[|ws| - 1];
      LastOf(ws, |s|, at);
      GrowLast(s, 0, ws);
      GrowLength(s[..w.at], 0, ws[..n]);
      WideLength(s[w.at..w.at + 16], w.value);
      Pieces(Grow(s[..w.at], 0, ws[..n]), WideBox(s[w.at..w.at + 16], w.value), s, w.at, n);
      if at < w.at {
        GrowMoves(s[..w.at], ws[..n], at);
      }
    }
  }

  lemma WideLength(b: seq<Byte>, value: nat)
    requires |b| == 16
    ensures |WideBox(b, value)| == 20
  {
    hide BE;
  }

  lemma LastOf(ws: seq<Widening>, high: nat, at: nat)
    requires Spaced(ws, 0, high) && ws != [] && OutsideWidened(ws, at)
    ensures var n, w := |ws| - 1, ws[|ws| - 1];
      w.at + 16 <= high && Spaced(ws[..n], 0, w.at) && OutsideWidened(ws[..n], at) &&
      (at < w.at || w.at + 16 <= at) &&
      CountBefore(ws, at) == if at < w.at then CountBefore(ws[..n], at) else |ws|
  {
    assert ws[|ws| - 1] in ws;
    FrontSpaced(ws, 0, high);
    if ws[|ws| - 1].at < at {
      BeforeLast(ws, 0, high, at);
    }
  }

  lemma Pieces(front: seq<Byte>, wide: seq<Byte>, s: seq<Byte>, p: nat, n: nat)
    requires |front| == p + 4 * n && |wide| == 20 && p + 16 <= |s|
    ensures var r := front + wide + s[p + 16..];
      |r| == |s| + 4 * n + 4 && (forall k | 0 <= k < |front| :: r[k] == front[k]) &&
      forall k | p + 16 <= k < |s| :: r[k + 4 * (n + 1)] == s[k]
  {
    var r := front + wide + s[p + 16..];
    forall k | p + 16 <= k < |s|
      ensures r[k + 4 * (n + 1)] == s[k]
    {
      assert r[k + 4 * (n + 1)] == s[p + 16..][k - p - 16];
    }
  }

  /** A byte of a slice, in the whole. */
  lemma InSlice(all: seq<Byte>, part: seq<Byte>, off: nat, y: nat)
    requires off + |part| <= |all| && all[off..off + |part|] == part && y < |part|
    ensures all[off + y] == part[y]
  {
    assert all[off..off + |part|][y] == all[off + y];
  }

  lemma BeforeLast(ws: seq<Widening>, low: nat, high: nat, at: nat)
    requires Spaced(ws, low, high) && ws != [] && ws[|ws| - 1].at < at
    ensures CountBefore(ws, at) == |ws|
  {
    forall w | w in ws
      ensures w.at < at
    {
      var i :| 0 <= i < |ws| && ws[i] == w;
    }
    CountAll(ws, at);
  }

  // ---- bytes no edit touches

  predicate Edited(name: string) {
    name == "tfdt" || name == "trun" || name == "saio"
  }

  /** The byte lies in a box of a traf that is never edited. */
  ghost predicate UntouchedInTraf(t: Node, x: int) {
    exists k | 0 <= k < |t.kids| :: !Edited(t.kids[k].name) && 0 <= x - KidAt(t, k) < |t.kids[k].all|
  }

  /** The byte lies in a box of a fragment that is not a traf, or untouched inside one. */
  ghost predicate UntouchedInMoof(m: Node, x: int) {
    exists j | 0 <= j < |m.kids| ::
      0 <= x - KidAt(m, j) < |m.kids[j].all| && (m.kids[j].name == "traf" ==> UntouchedInTraf(m.kids[j], x - KidAt(m, j)))
  }

  /** Media data, any other top-level box, the tail, and untouched boxes of fragments. */
  ghost predicate Untouched(nodes: seq<Node>, x: nat) {
    |Flat(nodes)| <= x ||
    exists i | 0 <= i < |nodes| ::
      0 <= x - |Flat(nodes[..i])| < |nodes[i].all| &&
      (nodes[i].name == "moof" ==> UntouchedInMoof(nodes[i], x - |Flat(nodes[..i])|))
  }

  lemma {:induction false} KidsSlice(t: Node, k: nat, i: nat, at: nat, delta: nat, ws: seq<Widening>)
    requires Holds(t) && k < i <= |t.kids| && KidsBytes(t, i, at, delta, ws).Some?
    ensures KidBytes(t, k, at, delta, ws).Some?
    ensures var off := |Flat(t.kids[..k])|;
      off + |t.kids[k].all| <= |KidsBytes(t, i, at, delta, ws).value| &&
      KidsBytes(t, i, at, delta, ws).value[off..off + |t.kids[k].all|] == KidBytes(t, k, at, delta, ws).value
    decreases i
  {
    hide KidBytes, Flat;
    var before, last := KidsBytes(t, i - 1, at, delta, ws).value, KidBytes(t, i - 1, at, delta, ws).value;
    assert KidsBytes(t, i, at, delta, ws).value == before + last;
    if k < i - 1 {
      KidsSlice(t, k, i - 1, at, delta, ws);
      var off := |Flat(t.kids[..k])|;
      SliceBefore(before, last, off, off + |t.kids[k].all|);
    } else {
      assert (before + last)[|before|..|before| + |last|] == last;
    }
  }

  lemma SliceBefore(a: seq<Byte>, b: seq<Byte>, i: nat, j: nat)
    requires i <= j <= |a|
    ensures (a + b)[i..j] == a[i..j]
  {
  }

  lemma UneditedKid(t: Node, k: nat, at: nat, delta: nat, ws: seq<Widening>)
    requires Holds(t) && k < |t.kids| && !Edited(t.kids[k].name)
    ensures KidBytes(t, k, at, delta, ws) == Some(t.kids[k].all)
  {
    hide EditTime;
  }

  lemma TrafKeeps(t: Node, trafAt: nat, trafs: nat, at: nat, delta: nat, ws: seq<Widening>, x: int)
    requires Holds(t) && TrafBytes(t, trafAt, trafs, at, delta, ws).Some? && UntouchedInTraf(t, x)
    requires t.all[t.head..t.head + |Flat(t.kids)|] == Flat(t.kids)
    ensures 0 <= x < |t.all| && TrafBytes(t, trafAt, trafs, at, delta, ws).value[x] == t.all[x]
  {
    hide KidBytes, KidsBytes, Flat, TrafHead, TrafBytes;
    var k :| 0 <= k < |t.kids| && !Edited(t.kids[k].name) && 0 <= x - KidAt(t, k) < |t.kids[k].all|;
    TrafFits(t, trafAt, trafs, at, delta, ws);
    KidsSlice(t, k, |t.kids|, at, delta, ws);
    UneditedKid(t, k, at, delta, ws);
    FlatSlice(t.kids, k);
    var kids := KidsBytes(t, |t.kids|, at, delta, ws).value;
    var off, y := |Flat(t.kids[..k])|, x - KidAt(t, k);
    InSlice(kids, t.kids[k].all, off, y);
    InSlice(Flat(t.kids), t.kids[k].all, off, y);
    InSlice(t.all, Flat(t.kids), t.head, off + y);
  }

  lemma {:induction false} FlatSliceTo(nodes: seq<Node>, i: nat, n: nat)
    requires i < n <= |nodes|
    ensures var off := |Flat(nodes[..i])|;
      off + |nodes[i].all| <= |Flat(nodes[..n])| && Flat(nodes[..n])[off..off + |nodes[i].all|] == nodes[i].all
    decreases n
  {
    hide Flat;
    FlatStep(nodes, n - 1);
    if i < n - 1 {
      FlatSliceTo(nodes, i, n - 1);
    }
  }

  lemma FlatSlice(nodes: seq<Node>, i: nat)
    requires i < |nodes|
    ensures var off := |Flat(nodes[..i])|;
      off + |nodes[i].all| <= |Flat(nodes)| && Flat(nodes)[off..off + |nodes[i].all|] == nodes[i].all
  {
    FlatSliceTo(nodes, i, |nodes|);
    assert nodes[..|nodes|] == nodes;
  }

  /** Containers hold their children as parsed. */
  lemma HoldsKids(n: Node)
    requires Built(n) && IsContainer(n.name)
    ensures Holds(n) && n.all[n.head..n.head + |Flat(n.kids)|] == Flat(n.kids)
  {
    hide Parse, Flat, Built;
    var _ := BuiltHolds(n);
  }

  function ChildBytes(m: Node, j: nat, at: nat, delta: nat, ws: seq<Widening>): (r: Option<seq<Byte>>)
    requires Fragment(m) && j < |m.kids|
    ensures r.Some? ==> |r.value| == |m.kids[j].all|
  {
    if m.kids[j].name == "traf" then TrafBytes(m.kids[j], at + KidAt(m, j), CountTrafs(m.kids), at, delta, ws)
    else Some(m.kids[j].all)
  }

  lemma {:induction false} MoofSlice(m: Node, j: nat, i: nat, at: nat, delta: nat, ws: seq<Widening>)
    requires Fragment(m) && j < i <= |m.kids| && MoofKids(m, i, at, delta, ws).Some?
    ensures ChildBytes(m, j, at, delta, ws).Some?
    ensures var off := |Flat(m.kids[..j])|;
      off + |m.kids[j].all| <= |MoofKids(m, i, at, delta, ws).value| &&
      MoofKids(m, i, at, delta, ws).value[off..off + |m.kids[j].all|] == ChildBytes(m, j, at, delta, ws).value
    decreases i
  {
    hide TrafBytes, Flat;
    if j < i - 1 {
      MoofSlice(m, j, i - 1, at, delta, ws);
    }
  }

  lemma MoofKeeps(m: Node, at: nat, delta: nat, x: int)
    requires Built(m) && m.name == "moof" && Fragment(m) && MoofBytes(m, at, delta).Some? && UntouchedInMoof(m, x)
    ensures 0 <= x < |m.all| && MoofBytes(m, at, delta).value.0[x] == m.all[x]
  {
    hide Parse, Flat, Built, MoofBytes, MoofKids, Widenings, TrafBytes, Trafs, UntouchedInTraf, GrownHead, ChildBytes;
    var j :| 0 <= j < |m.kids| && 0 <= x - KidAt(m, j) < |m.kids[j].all| &&
      (m.kids[j].name == "traf" ==> UntouchedInTraf(m.kids[j], x - KidAt(m, j)));
    var (bytes, ws) := MoofBytes(m, at, delta).value;
    MoofFits(m, at, delta);
    MoofKidsKeep(m, j, at, delta, ws, x - KidAt(m, j));
    HeadLength(m, ws);
    Behind(if ws == [] then m.all[..m.head] else GrownHead(m, |ws|), MoofKids(m, |m.kids|, at, delta, ws).value, Tail(m),
           x - m.head);
  }

  lemma HeadLength(m: Node, ws: seq<Widening>)
    requires Holds(m) && (ws != [] ==> m.head == 8)
    ensures |if ws == [] then m.all[..m.head] else GrownHead(m, |ws|)| == m.head
  {
    hide BE;
  }

  lemma MoofKidsKeep(m: Node, j: nat, at: nat, delta: nat, ws: seq<Widening>, y: nat)
    requires Built(m) && m.name == "moof" && Fragment(m) && j < |m.kids| && MoofKids(m, |m.kids|, at, delta, ws).Some?
    requires y < |m.kids[j].all| && (m.kids[j].name == "traf" ==> UntouchedInTraf(m.kids[j], y))
    ensures var off, kids := |Flat(m.kids[..j])|, MoofKids(m, |m.kids|, at, delta, ws).value;
      off + y < |kids| && m.head + off + y < |m.all| && kids[off + y] == m.all[m.head + off + y]
  {
    hide Parse, Flat, Built, MoofKids, TrafBytes, UntouchedInTraf, ChildBytes;
    var off, kids := |Flat(m.kids[..j])|, MoofKids(m, |m.kids|, at, delta, ws).value;
    HoldsKids(m);
    MoofSlice(m, j, |m.kids|, at, delta, ws);
    FlatSlice(m.kids, j);
    ChildKeeps(m, j, at, delta, ws, y);
    InSlice(kids, ChildBytes(m, j, at, delta, ws).value, off, y);
    InSlice(Flat(m.kids), m.kids[j].all, off, y);
    InSlice(m.all, Flat(m.kids), m.head, off + y);
  }

  lemma Behind(head: seq<Byte>, kids: seq<Byte>, tail: seq<Byte>, y: nat)
    requires y < |kids|
    ensures (head + kids + tail)[|head| + y] == kids[y]
  {
  }

  lemma ChildKeeps(m: Node, j: nat, at: nat, delta: nat, ws: seq<Widening>, y: nat)
    requires Built(m) && m.name == "moof" && Fragment(m) && j < |m.kids| && ChildBytes(m, j, at, delta, ws).Some?
    requires y < |m.kids[j].all| && (m.kids[j].name == "traf" ==> UntouchedInTraf(m.kids[j], y))
    ensures ChildBytes(m, j, at, delta, ws).value[y] == m.kids[j].all[y]
  {
    hide Parse, Flat, Built, TrafBytes, UntouchedInTraf;
    if m.kids[j].name == "traf" {
      KidsBuilt(m);
      HoldsKids(m.kids[j]);
      TrafKeeps(m.kids[j], at + KidAt(m, j), CountTrafs(m.kids), at, delta, ws, y);
    }
  }

  lemma {:induction false} TopSlice(nodes: seq<Node>, i: nat, n: nat, delta: nat)
    requires Fragments(nodes) && i < n <= |nodes| && TopBytes(nodes, n, delta).Some?
    ensures BoxBytes(nodes, i, delta).Some? && |BoxBytes(nodes, i, delta).value.0| == |nodes[i].all|
    ensures var off := |Flat(nodes[..i])|;
      off + |nodes[i].all| <= |TopBytes(nodes, n, delta).value.0| &&
      TopBytes(nodes, n, delta).value.0[off..off + |nodes[i].all|] == BoxBytes(nodes, i, delta).value.0
    decreases n
  {
    hide Flat, TopBytes, BoxBytes, Fragment, Spaced;
    TopStep(nodes, n - 1, delta);
    if i < n - 1 {
      TopSlice(nodes, i, n - 1, delta);
    }
  }

  /** The same-length edits leave untouched bytes as they are. */
  lemma EditsKeep(payload: seq<Byte>, delta: nat, x: nat)
    requires Parse(payload).Some? && x < |payload| && Untouched(Parse(payload).value, x)
    requires Fragments(Parse(payload).value) && TopBytes(Parse(payload).value, |Parse(payload).value|, delta).Some?
    ensures var nodes := Parse(payload).value;
      |Flat(nodes)| <= |payload| && |TopBytes(nodes, |nodes|, delta).value.0| == |Flat(nodes)| &&
      (TopBytes(nodes, |nodes|, delta).value.0 + payload[|Flat(nodes)|..])[x] == payload[x]
  {
    hide Parse, Flat, TopBytes, MoofBytes, Fragment, UntouchedInMoof, Built;
    var nodes := Parse(payload).value;
    var tail := ParseTiles(payload);
    ParsedBuilt(payload);
    assert nodes[..|nodes|] == nodes;
    assert payload[|Flat(nodes)|..] == tail;
    EditsKeepIn(nodes, tail, delta, x);
  }

  lemma EditsKeepIn(nodes: seq<Node>, tail: seq<Byte>, delta: nat, x: nat)
    requires Fragments(nodes) && TopBytes(nodes, |nodes|, delta).Some? && forall n | n in nodes :: Built(n)
    requires |TopBytes(nodes, |nodes|, delta).value.0| == |Flat(nodes)|
    requires x < |Flat(nodes)| + |tail| && Untouched(nodes, x)
    ensures (TopBytes(nodes, |nodes|, delta).value.0 + tail)[x] == (Flat(nodes) + tail)[x]
  {
    hide Parse, Flat, TopBytes, Fragment, UntouchedInMoof, Built;
    if x < |Flat(nodes)| {
      var i :| 0 <= i < |nodes| && 0 <= x - |Flat(nodes[..i])| < |nodes[i].all| &&
        (nodes[i].name == "moof" ==> UntouchedInMoof(nodes[i], x - |Flat(nodes[..i])|));
      BoxKeeps(nodes, i, delta, x);
    }
  }

  lemma BoxKeeps(nodes: seq<Node>, i: nat, delta: nat, x: nat)
    requires Fragments(nodes) && i < |nodes| && TopBytes(nodes, |nodes|, delta).Some? && Built(nodes[i])
    requires 0 <= x - |Flat(nodes[..i])| < |nodes[i].all|
    requires nodes[i].name == "moof" ==> UntouchedInMoof(nodes[i], x - |Flat(nodes[..i])|)
    ensures x < |TopBytes(nodes, |nodes|, delta).value.0| && x < |Flat(nodes)|
    ensures TopBytes(nodes, |nodes|, delta).value.0[x] == Flat(nodes)[x]
  {
    hide Parse, Flat, TopBytes, MoofBytes, Fragment, UntouchedInMoof, Built;
    var off := |Flat(nodes[..i])|;
    TopSlice(nodes, i, |nodes|, delta);
    FlatSlice(nodes, i);
    if nodes[i].name == "moof" {
      assert nodes[i] in nodes;
      MoofKeeps(nodes[i], off, delta, x - off);
    }
    InSlice(TopBytes(nodes, |nodes|, delta).value.0, BoxBytes(nodes, i, delta).value.0, off, x - off);
    InSlice(Flat(nodes), nodes[i].all, off, x - off);
  }

  // ---- the main results

  /** All widenings of a payload that can be rebased. */
  function AllWidenings(payload: seq<Byte>, delta: nat): seq<Widening>
    requires Parse(payload).Some?
  {
    ParsedBuilt(payload);
    var r := TopBytes(Parse(payload).value, |Parse(payload).value|, delta);
    if r.Some? then r.value.1 else []
  }

  /** Every byte no edit touches is in the result, at its new position. */
  lemma UntouchedBytesMove(payload: seq<Byte>, delta: nat, x: nat)
    requires Rebase(payload, delta).Some? && x < |payload| && Untouched(Parse(payload).value, x)
    requires OutsideWidened(AllWidenings(payload, delta), x)
    ensures var result, to := Rebase(payload, delta).value, NewPosition(AllWidenings(payload, delta), x);
      to < |result| && result[to] == payload[x]
  {
    hide Parse, Flat, TopBytes, Fragment, Grow, Spaced, Untouched, SomeTraf;
    var nodes := Parse(payload).value;
    ParsedBuilt(payload);
    EditsKeep(payload, delta, x);
    AllSpaced(nodes, delta, |payload|);
    GrowMoves(TopBytes(nodes, |nodes|, delta).value.0 + payload[|Flat(nodes)|..], AllWidenings(payload, delta), x);
  }

  lemma {:induction false} WideningsAfter(nodes: seq<Node>, i: nat, n: nat, delta: nat) returns (after: seq<Widening>)
    requires Fragments(nodes) && i < n <= |nodes| && TopBytes(nodes, n, delta).Some?
    ensures TopBytes(nodes, i, delta).Some? && BoxBytes(nodes, i, delta).Some?
    ensures TopBytes(nodes, n, delta).value.1 == TopBytes(nodes, i, delta).value.1 + BoxBytes(nodes, i, delta).value.1 + after
    ensures Spaced(after, |Flat(nodes[..i + 1])|, |Flat(nodes[..n])|)
    decreases n
  {
    hide Flat, TopBytes, BoxBytes, Fragment, Spaced;
    TopStep(nodes, n - 1, delta);
    if i == n - 1 {
      after := [];
      NothingAfter(|Flat(nodes[..n])|);
    } else {
      var mid := WideningsAfter(nodes, i, n - 1, delta);
      after := mid + BoxBytes(nodes, n - 1, delta).value.1;
      FlatStep(nodes, n - 1);
      SpacedConcat(mid, BoxBytes(nodes, n - 1, delta).value.1, |Flat(nodes[..i + 1])|, |Flat(nodes[..n - 1])|,
                   |Flat(nodes[..n])|);
    }
  }

  lemma NothingAfter(at: nat)
    ensures Spaced([], at, at)
  {
  }

  lemma {:induction false} CountExactly(ws: seq<Widening>, target: int)
    ensures CountBefore(ws, target) <= |ws|
    ensures CountBefore(ws, target) == |ws| <==> forall w | w in ws :: w.at < target
    ensures CountBefore(ws, target) == 0 <==> forall w | w in ws :: target <= w.at
  {
    if ws != [] {
      CountExactly(ws[..|ws| - 1], target);
      assert forall w :: w in ws <==> w in ws[..|ws| - 1] || w == ws[|ws| - 1];
    }
  }

  /** Where a top-level box of the result starts. */
  lemma BoxPosition(nodes: seq<Node>, i: nat, delta: nat)
    requires Moofs(nodes, |nodes|, delta) && i <= |nodes| && TopBytes(nodes, i, delta).Some?
    ensures |Flat(FinalBoxes(nodes, delta)[..i])| == |Flat(nodes[..i])| + 4 * |TopBytes(nodes, i, delta).value.1|
  {
    hide Flat, TopBytes, FinalBoxes, Grow, Spaced, Fragment;
    TopGrown(nodes, i, delta);
    GrowLength(TopBytes(nodes, i, delta).value.0, 0, TopBytes(nodes, i, delta).value.1);
  }

  /**
   * An offset of fragment `i` that moved by its own fragment's widenings before
   * the target names the target's new position if and only if no widening of
   * another fragment lies between the fragment and the target.
   */
  lemma OffsetFollowsExactly(payload: seq<Byte>, delta: nat, i: nat, target: nat)
    requires Rebase(payload, delta).Some? && i < |Parse(payload).value|
    ensures var nodes := Parse(payload).value;
      Moofs(nodes, |nodes|, delta) && TopBytes(nodes, i, delta).Some? && TopBytes(nodes, i + 1, delta).Some? &&
      BoxBytes(nodes, i, delta).Some?
    ensures var nodes, all := Parse(payload).value, AllWidenings(payload, delta);
      var at, to := |Flat(nodes[..i])|, |Flat(FinalBoxes(nodes, delta)[..i])|;
      var before, own := TopBytes(nodes, i, delta).value.1, BoxBytes(nodes, i, delta).value.1;
      |before + own| <= |all| && all[..|before + own|] == before + own &&
      (to + (target - at + 4 * CountBefore(own, target)) == NewPosition(all, target) <==>
       (forall w | w in before :: w.at < target) && forall w | w in all[|before + own|..] :: target <= w.at)
  {
    hide Parse, Flat, TopBytes, BoxBytes, Fragment, Spaced, Grow, SomeTraf, FinalBoxes;
    var nodes := Parse(payload).value;
    ParsedBuilt(payload);
    MoofsFrom(nodes, |nodes|, delta);
    var after := WideningsAfter(nodes, i, |nodes|, delta);
    BoxPosition(nodes, i, delta);
    PrefixBytes(nodes, i + 1, |nodes|, delta);
    var before, own := TopBytes(nodes, i, delta).value.1, BoxBytes(nodes, i, delta).value.1;
    assert AllWidenings(payload, delta)[|before + own|..] == after;
    CountConcat(before + own, after, target);
    CountConcat(before, own, target);
    CountExactly(before, target);
    CountExactly(after, target);
    OneSided(nodes, i, delta, target, before, own, after);
  }

  lemma {:induction false} PrefixBytes(nodes: seq<Node>, i: nat, n: nat, delta: nat)
    requires Fragments(nodes) && i <= n <= |nodes| && TopBytes(nodes, n, delta).Some?
    ensures TopBytes(nodes, i, delta).Some?
    decreases n
  {
    hide Flat, TopBytes, BoxBytes, Fragment, Spaced;
    if i < n {
      TopStep(nodes, n - 1, delta);
      PrefixBytes(nodes, i, n - 1, delta);
    }
  }

  /** A target is past every earlier widening or before every later one. */
  lemma OneSided(nodes: seq<Node>, i: nat, delta: nat, target: nat, before: seq<Widening>, own: seq<Widening>,
                 after: seq<Widening>)
    requires Fragments(nodes) && i < |nodes| && TopBytes(nodes, i, delta).Some? && before == TopBytes(nodes, i, delta).value.1
    requires Spaced(after, |Flat(nodes[..i + 1])|, |Flat(nodes[..|nodes|])|)
    ensures CountBefore(before, target) == |before| || CountBefore(after, target) == 0
  {
    hide Flat, TopBytes, Fragment;
    TopSpaced(nodes, i, delta);
    FlatStep(nodes, i);
    CountExactly(before, target);
    CountExactly(after, target);
  }

  // ---- inside the reparsed tree

  /** A box at a place in the parsed payload: child `k` of traf `j` of fragment `i`. */
  ghost predicate Place(nodes: seq<Node>, i: nat, j: nat, k: nat) {
    Fragments(nodes) && i < |nodes| && nodes[i].name == "moof" && j < |nodes[i].kids| && nodes[i].kids[j].name == "traf" &&
    k < |nodes[i].kids[j].kids| && nodes[i].kids[j].kids[k].head <= |nodes[i].kids[j].kids[k].all|
  }

  function KidOf(nodes: seq<Node>, i: nat, j: nat, k: nat): Node
    requires Place(nodes, i, j, k)
  {
    nodes[i].kids[j].kids[k]
  }

  /** The box at the same place of the result. */
  lemma KidInTree(nodes: seq<Node>, delta: nat, i: nat, j: nat, k: nat)
    requires Moofs(nodes, |nodes|, delta) && Place(nodes, i, j, k)
    ensures var m, at := nodes[i], |Flat(nodes[..i])|;
      var ws, final := MoofBytes(m, at, delta).value.1, FinalBoxes(nodes, delta);
      |final[i].kids| == |m.kids| && |final[i].kids[j].kids| == |m.kids[j].kids| &&
      !EditTraf(m.kids[j], delta).Refuse? && KidsFit(m.kids[j], |m.kids[j].kids|, at, delta, ws) &&
      final[i].kids[j] == FinalTraf(m.kids[j], at + KidAt(m, j), at, delta, ws) &&
      final[i].kids[j].kids[k] == FinalKid(m.kids[j], k, at, delta, ws)
  {
    hide Flat, MoofBytes, TrafBytes, EditTraf, KidsFit, FinalKid, TrafHead, Fragment;
  }

  /** Every traf of every fragment decodes later by the delta, modulo 64 bits. */
  lemma DecodeTimesRaised(payload: seq<Byte>, delta: nat, i: nat, j: nat)
    requires Parse(payload).Some? && Rebase(payload, delta).Some? && |Rebase(payload, delta).value| <= MaxU32
    requires Place(Parse(payload).value, i, j, 0)
    ensures var nodes := Parse(payload).value;
      Parse(Rebase(payload, delta).value).Some? &&
      var final := Parse(Rebase(payload, delta).value).value;
      |final| == |nodes| && j < |final[i].kids| && (forall c | c in nodes[i].kids[j].kids :: c.head <= |c.all|) &&
      (forall c | c in final[i].kids[j].kids :: c.head <= |c.all|) && TrafTime(nodes[i].kids[j]).Some? &&
      TrafTime(final[i].kids[j]) == Some((TrafTime(nodes[i].kids[j]).value + delta) % TwoTo64)
  {
    hide Parse, Flat, Rebase, MoofBytes, Trafs, EditTraf, FinalTraf, TrafTime, Shape;
    var nodes := Parse(payload).value;
    RebasedParses(payload, delta);
    KidInTree(nodes, delta, i, j, 0);
    var m, at := nodes[i], |Flat(nodes[..i])|;
    TrafTimeRaised(m.kids[j], at + KidAt(m, j), at, delta, MoofBytes(m, at, delta).value.1);
  }

  lemma TrunInTraf(t: Node, k: nat, at: nat, delta: nat, ws: seq<Widening>)
    requires Holds(t) && k < |t.kids| && t.kids[k].name == "trun" && KidBytes(t, k, at, delta, ws).Some?
    requires DataOffset(t.kids[k]).Some?
    ensures var c, final := t.kids[k], FinalKid(t, k, at, delta, ws);
      final.head <= |final.all| && (ws != [] ==> 0 <= at + DataOffset(c).value) &&
      DataOffset(final) == Some(DataOffset(c).value + 4 * CountBefore(ws, at + DataOffset(c).value))
  {
    hide Flat, EditTime, EditTrun, DataOffset;
    if ws != [] {
      TrunMoved(t.kids[k], at, ws);
    }
  }

  lemma SaioInTraf(t: Node, k: nat, at: nat, delta: nat, ws: seq<Widening>, n: nat)
    requires Holds(t) && k < |t.kids| && t.kids[k].name == "saio" && KidBytes(t, k, at, delta, ws).Some?
    requires SaioLayout(t.kids[k].all[t.kids[k].head..]).Some? && n < SaioLayout(t.kids[k].all[t.kids[k].head..]).value.2
    ensures var c, final := t.kids[k], FinalKid(t, k, at, delta, ws);
      final.head <= |final.all| && SaioLayout(final.all[final.head..]) == SaioLayout(c.all[c.head..]) &&
      Entry(final, n) == (if ws == [] then Entry(c, n)
                          else (Entry(c, n) + 4 * CountBefore(ws, (at + Entry(c, n)) % TwoTo64)) % TwoTo64)
  {
    hide Flat, EditTime, EditSaio, SaioLayout, Entry;
    if ws != [] {
      SaioMoved(t.kids[k], at, ws, n);
    }
  }

  /** The target of an offset of fragment `i`: no edit touches it, and no other fragment widens on the way to it. */
  ghost predicate Reachable(payload: seq<Byte>, delta: nat, i: nat, target: int) {
    Parse(payload).Some? && Fragments(Parse(payload).value) && i < |Parse(payload).value| && 0 <= target < |payload| &&
    Untouched(Parse(payload).value, target) && OutsideWidened(AllWidenings(payload, delta), target) &&
    TopBytes(Parse(payload).value, i, delta).Some? && BoxBytes(Parse(payload).value, i, delta).Some? &&
    (forall w | w in TopBytes(Parse(payload).value, i, delta).value.1 :: w.at < target) &&
    var seen := |TopBytes(Parse(payload).value, i, delta).value.1 + BoxBytes(Parse(payload).value, i, delta).value.1|;
    seen <= |AllWidenings(payload, delta)| && forall w | w in AllWidenings(payload, delta)[seen..] :: target <= w.at
  }

  lemma ReachableMoves(payload: seq<Byte>, delta: nat, i: nat, target: nat)
    requires Rebase(payload, delta).Some? && Reachable(payload, delta, i, target)
    ensures var nodes, result := Parse(payload).value, Rebase(payload, delta).value;
      Moofs(nodes, |nodes|, delta) &&
      var at, to := |Flat(nodes[..i])|, |Flat(FinalBoxes(nodes, delta)[..i])|;
      var moved := to + (target - at + 4 * CountBefore(BoxBytes(nodes, i, delta).value.1, target));
      0 <= moved < |result| && result[moved] == payload[target]
  {
    hide Parse, Flat, TopBytes, BoxBytes, Fragment, Rebase, FinalBoxes, Untouched, OutsideWidened, AllWidenings;
    OffsetFollowsExactly(payload, delta, i, target);
    UntouchedBytesMove(payload, delta, target);
  }

  /** The data offset theorem: in the reparsed result, a run's offset names the byte it named before. */
  lemma RunNamesSameByte(payload: seq<Byte>, nodes: seq<Node>, delta: nat, result: seq<Byte>, i: nat, j: nat, k: nat)
    returns (final: seq<Node>)
    requires Parse(payload) == Some(nodes) && Rebase(payload, delta) == Some(result) && |result| <= MaxU32
    requires Place(nodes, i, j, k) && KidOf(nodes, i, j, k).name == "trun" && DataOffset(KidOf(nodes, i, j, k)).Some?
    requires Reachable(payload, delta, i, |Flat(nodes[..i])| + DataOffset(KidOf(nodes, i, j, k)).value)
    ensures Parse(result) == Some(final) && Matches(nodes, final, i, j, k)
    ensures var offset := DataOffset(final[i].kids[j].kids[k]);
      offset.Some? && 0 <= |Flat(final[..i])| + offset.value < |result| &&
      result[|Flat(final[..i])| + offset.value] ==
        payload[|Flat(nodes[..i])| + DataOffset(KidOf(nodes, i, j, k)).value]
  {
    hide Parse, Flat, TopBytes, MoofBytes, Fragment, Rebase, FinalBoxes, Reachable, Shape, DataOffset, Trafs, KidsFit,
      EditTraf, FinalTraf, FinalKid;
    var at := |Flat(nodes[..i])|;
    var target := at + DataOffset(KidOf(nodes, i, j, k)).value;
    RebasedParses(payload, delta);
    final := FinalBoxes(nodes, delta);
    BoxCount(nodes, delta);
    KidInTree(nodes, delta, i, j, k);
    var ws := MoofBytes(nodes[i], at, delta).value.1;
    FitsHere(nodes[i].kids[j], k, at, delta, ws);
    TrunInTraf(nodes[i].kids[j], k, at, delta, ws);
    ReachableInside(payload, delta, i, target);
    ReachableMoves(payload, delta, i, target);
  }

  /** The same for an entry of a saio. */
  lemma AuxiliaryNamesSameByte(payload: seq<Byte>, nodes: seq<Node>, delta: nat, result: seq<Byte>, i: nat, j: nat, k: nat,
                               n: nat)
    returns (final: seq<Node>)
    requires Parse(payload) == Some(nodes) && Rebase(payload, delta) == Some(result) && |result| <= MaxU32
    requires Place(nodes, i, j, k) && KidOf(nodes, i, j, k).name == "saio" && IsEntry(KidOf(nodes, i, j, k), n)
    requires Reachable(payload, delta, i, |Flat(nodes[..i])| + Entry(KidOf(nodes, i, j, k), n))
    ensures Parse(result) == Some(final) && Matches(nodes, final, i, j, k) && IsEntry(final[i].kids[j].kids[k], n)
    ensures var offset := Entry(final[i].kids[j].kids[k], n);
      |Flat(final[..i])| + offset < |result| &&
      result[|Flat(final[..i])| + offset] == payload[|Flat(nodes[..i])| + Entry(KidOf(nodes, i, j, k), n)]
  {
    hide Parse, Flat, TopBytes, MoofBytes, Fragment, Rebase, FinalBoxes, Reachable, Shape, Entry, SaioLayout, Trafs,
      KidsFit, EditTraf, FinalTraf, FinalKid, CountBefore;
    var at := |Flat(nodes[..i])|;
    var target := at + Entry(KidOf(nodes, i, j, k), n);
    RebasedParses(payload, delta);
    final := FinalBoxes(nodes, delta);
    BoxCount(nodes, delta);
    KidInTree(nodes, delta, i, j, k);
    var ws := MoofBytes(nodes[i], at, delta).value.1;
    FitsHere(nodes[i].kids[j], k, at, delta, ws);
    ReachableInside(payload, delta, i, target);
    OwnAreFew(payload, nodes, delta, i);
    EntryMoves(nodes[i].kids[j], k, at, delta, ws, n);
    ReachableMoves(payload, delta, i, target);
  }

  lemma BoxCount(nodes: seq<Node>, delta: nat)
    requires Moofs(nodes, |nodes|, delta)
    ensures |FinalBoxes(nodes, delta)| == |nodes|
  {
  }

  lemma EntryMoves(t: Node, k: nat, at: nat, delta: nat, ws: seq<Widening>, n: nat)
    requires Holds(t) && k < |t.kids| && t.kids[k].name == "saio" && KidBytes(t, k, at, delta, ws).Some?
    requires IsEntry(t.kids[k], n) && at + Entry(t.kids[k], n) <= MaxU32 && 4 * |ws| <= MaxU32
    ensures var final := FinalKid(t, k, at, delta, ws);
      final.head <= |final.all| && IsEntry(final, n) &&
      Entry(final, n) == Entry(t.kids[k], n) + 4 * CountBefore(ws, at + Entry(t.kids[k], n))
  {
    hide Flat, KidBytes, FinalKid, SaioLayout, Entry, CountBefore;
    SaioInTraf(t, k, at, delta, ws, n);
    var target := at + Entry(t.kids[k], n);
    CountExactly(ws, target);
    SmallSum(target, 0);
    SmallSum(Entry(t.kids[k], n), 4 * CountBefore(ws, target));
  }

  lemma SmallSum(a: nat, b: nat)
    requires a <= MaxU32 && b <= MaxU32
    ensures (a + b) % TwoTo64 == a + b
  {
  }

  ghost predicate Matches(nodes: seq<Node>, final: seq<Node>, i: nat, j: nat, k: nat) {
    |final| == |nodes| && i < |final| && j < |final[i].kids| && k < |final[i].kids[j].kids| &&
    final[i].kids[j].kids[k].head <= |final[i].kids[j].kids[k].all|
  }

  ghost predicate IsEntry(c: Node, n: nat)
    requires c.head <= |c.all|
  {
    SaioLayout(c.all[c.head..]).Some? && n < SaioLayout(c.all[c.head..]).value.2
  }

  lemma OwnAreFew(payload: seq<Byte>, nodes: seq<Node>, delta: nat, i: nat)
    requires Parse(payload) == Some(nodes) && Rebase(payload, delta).Some? && |Rebase(payload, delta).value| <= MaxU32
    requires Fragments(nodes) && i < |nodes|
    ensures BoxBytes(nodes, i, delta).Some? && 4 * |BoxBytes(nodes, i, delta).value.1| <= MaxU32
  {
    hide Parse, Flat, TopBytes, BoxBytes, Fragment, Shape, Grow, SomeTraf, FinalBoxes, Moofs;
    RebasedParses(payload, delta);
    FewerWidenings(nodes, i, |nodes|, delta);
  }

  lemma FitsHere(t: Node, k: nat, at: nat, delta: nat, ws: seq<Widening>)
    requires KidsFit(t, |t.kids|, at, delta, ws) && k < |t.kids|
    ensures Holds(t) && KidBytes(t, k, at, delta, ws).Some?
  {
  }

  lemma ReachableInside(payload: seq<Byte>, delta: nat, i: nat, target: int)
    requires Reachable(payload, delta, i, target) && Rebase(payload, delta).Some? && |Rebase(payload, delta).value| <= MaxU32
    ensures 0 <= target < |payload| <= MaxU32
  {
    hide Parse, Flat, TopBytes, BoxBytes, Fragment, Rebase, FinalBoxes, Untouched, OutsideWidened, AllWidenings, Shape;
    RebasedParses(payload, delta);
  }
}
