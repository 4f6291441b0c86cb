/** The promises of normalizing a moof: samples, data offset, auxiliary offsets, and normalizing again. */
module TrunNormalizeMoves {
  import opened Bytes
  import opened Mp4Boxes
  import opened BoxWriter
  import opened CmafRebase
  import opened CmafRebaseTree
  import opened CmafRebaseValues
  import opened TrunNormalize
  import opened TrunNormalizeRead
  import opened TrunNormalizeTree
  import F = FragmentReader

  // ---- the size and the place of the run

  /** Two rebuilds with runs of one length are of one size. */
  lemma SameSize(w: Place, a: seq<Node>, b: seq<Node>)
    requires w.Inside() && |a| == |b| && forall i | 0 <= i < |a| :: |a[i].all| == |b[i].all|
    ensures |NewMoof(w, a)| == |NewMoof(w, b)|
  {
    hide Flat, Box;
    FlatLengths(a, b);
    MoofLength(w, a);
    MoofLength(w, b);
  }

  lemma MoofLength(w: Place, kids: seq<Node>)
    requires w.Inside()
    ensures |NewMoof(w, kids)| == 16 + |Flat(w.moof.kids[..w.j])| + |Flat(kids)| + |Flat(w.moof.kids[w.j + 1..])|
  {
    hide Flat;
  }

  lemma TrunLength(run: Run, x: nat, y: nat)
    ensures |NormalTrun(run, x)| == |NormalTrun(run, y)|
  {
    hide NormalFlags, EntriesBytes, HasBit;
  }

  /** The size measured on the placeholder is that of the result. */
  lemma SizeIsRight(w: Place, run: Run, ch: Change, kids: seq<Node>, dataOffset: nat)
    requires w.Inside() && w.Trun().name == "trun" && NewKids(w, |w.Traf().kids|, ch) == Some(kids)
    requires ch.trun == NormalTrun(run, dataOffset) && NewSize(w, run).Some?
    ensures NewSize(w, run) == Some(|NewMoof(w, kids)|)
  {
    hide NewKids, NewKid, NewMoof, NormalTrun;
    var n := |w.Traf().kids|;
    var first := Change(NormalTrun(run, 0), false, 0, 0);
    var placeholder := NewKids(w, n, first).value;
    TrunLength(run, 0, dataOffset);
    forall i | 0 <= i < n
      ensures |placeholder[i].all| == |kids[i].all|
    {
      NewKidsAt(w, n, first, i);
      NewKidsAt(w, n, ch, i);
      NewKidIs(w, i, first);
      NewKidIs(w, i, ch);
      if i == w.k {
        NewTrun(w, first);
        NewTrun(w, ch);
      }
    }
    SameSize(w, placeholder, kids);
  }

  /** A child's bytes in its parent. */
  lemma KidSlice(n: Node, i: nat)
    requires i < |n.kids| && n.head <= |n.all| && n.all == n.all[..n.head] + Flat(n.kids)
    ensures KidAt(n, i) + |n.kids[i].all| <= |n.all|
    ensures n.all[KidAt(n, i)..KidAt(n, i) + |n.kids[i].all|] == n.kids[i].all
  {
    hide Flat;
    FlatCut(n.kids, i);
    var before, kid, after := n.all[..n.head] + Flat(n.kids[..i]), n.kids[i].all, Flat(n.kids[i + 1..]);
    assert n.all == before + kid + after;
    assert (before + kid + after)[|before|..|before| + |kid|] == kid;
  }

  /** The rebuilt run is where the old one started. */
  lemma TrunInPlace(w: Place, kids: seq<Node>)
    requires w.Inside() && |kids| == |w.Traf().kids|
    requires Place(NewMoofNode(w, kids), w.j, w.k).TrunAt() == w.TrunAt()
    ensures w.TrunAt() + |kids[w.k].all| <= |NewMoof(w, kids)|
    ensures NewMoof(w, kids)[w.TrunAt()..w.TrunAt() + |kids[w.k].all|] == kids[w.k].all
  {
    hide Flat, Box;
    var m, t := NewMoofNode(w, kids), NewTrafNode(kids);
    MoofIsBox(w, kids);
    BoxPayload("moof", Flat(m.kids));
    BoxPayload("traf", Flat(kids));
    KidSlice(m, w.j);
    KidSlice(t, w.k);
    var trafAt, at := KidAt(m, w.j), KidAt(t, w.k);
    Part(m.all, trafAt, t.all, at, at + |kids[w.k].all|);
  }

  lemma BoxPayload(name: FourCC, payload: seq<Byte>)
    ensures Box(name, payload) == Box(name, payload)[..8] + payload
  {
  }

  // ---- the promises

  /** What a normalization found and made. */
  lemma Outcome(b: seq<Byte>, mdatSize: nat, d: F.Defaults) returns (kids: seq<Node>)
    requires Compact(b) && Defaults32(d) && Normalize(b, mdatSize, d).Some?
    requires |Normalize(b, mdatSize, d).value| + 8 <= MaxU32
    ensures var out, p := Normalize(b, mdatSize, d).value, PlanOf(b, d).value;
      p.place == Locate(b).value && Regular(p.run) && p.size == |out| && out == NewMoof(p.place, kids) &&
      NewKids(p.place, |p.place.Traf().kids|, ChangeOf(b, mdatSize, p)) == Some(kids) &&
      |kids| == |p.place.Traf().kids| &&
      kids[p.place.k] == Node("trun", 8, NormalTrun(p.run, |out| + 8), []) &&
      Locate(out) == Some(Place(NewMoofNode(p.place, kids), p.place.j, p.place.k)) && Compact(out) &&
      Locate(out).value.TrunAt() == p.place.TrunAt() && Locate(out).value.TrafAt() == p.place.TrafAt()
  {
    hide Parse, Flat, Built, Stated, Ranged, NewKids, NewKid, NormalTrun, Locatable, RunAt, Regular, NewMoof, Locate,
         Compact, Find, NewSize;
    CompactHeads(b);
    var p := PlanOf(b, d).value;
    var w := p.place;
    RunIsRegular(b, w.TrunAt() + w.Trun().head, d);
    kids := Rebuilding(b, mdatSize, d);
    CompactBoxes(b);
    SizeIsRight(w, p.run, ChangeOf(b, mdatSize, p), kids, p.size + 8);
    RebuiltParses(w, kids);
    TrunHasRoom(p.run, p.size + 8);
    OthersHaveNone(b);
    Relocated(w, kids);
  }

  lemma TrunHasRoom(run: Run, dataOffset: nat)
    ensures |NormalTrun(run, dataOffset)| >= 16
  {
    hide NormalFlags, EntriesBytes, HasBit;
  }

  lemma OthersHaveNone(b: seq<Byte>)
    requires Locate(b).Some?
    ensures var w := Locate(b).value;
      w.j == IndexOf(w.moof.kids, "traf") && w.k == IndexOf(w.Traf().kids, "trun") &&
      forall i | 0 <= i < |w.moof.kids| ::
        i == w.j || w.moof.kids[i].name != "traf" || Find(w.moof.kids[i].kids, "saio").None?
  {
    hide Parse, Find;
  }

  lemma RunReadsBack(w: Place, kids: seq<Node>, run: Run, dataOffset: nat, later: F.Defaults)
    requires w.Inside() && |kids| == |w.Traf().kids| && kids[w.k].all == NormalTrun(run, dataOffset)
    requires Place(NewMoofNode(w, kids), w.j, w.k).TrunAt() == w.TrunAt()
    requires Regular(run) && dataOffset <= MaxU32
    ensures var out, at := NewMoof(w, kids), w.TrunAt();
      RunAt(out, at + 8, later) == Some(Normal(run)) && at + 20 <= |out| && FromBE(out[at + 16..at + 20]) == dataOffset
  {
    hide Flat, NormalTrun, RunAt, Regular, NewMoof, FromBE, KidAt;
    TrunInPlace(w, kids);
    TrunBack(NewMoof(w, kids), w.TrunAt(), run, dataOffset, later);
  }

  /**
   * The samples of the run stay what they were: whatever the defaults, the result
   * reads as the durations, sizes, flags and composition offsets the moof had under
   * its own defaults. Its data offset is the size of the new moof and the mdat header.
   */
  lemma SamplesKept(b: seq<Byte>, mdatSize: nat, d: F.Defaults, later: F.Defaults)
    requires Compact(b) && Defaults32(d) && Normalize(b, mdatSize, d).Some?
    requires |Normalize(b, mdatSize, d).value| + 8 <= MaxU32
    ensures var out, p := Normalize(b, mdatSize, d).value, PlanOf(b, d).value;
      var at := p.place.TrunAt();
      Locate(out).Some? && Locate(out).value.TrunAt() == at && Locate(out).value.Trun().head == 8 &&
      RunAt(out, at + 8, later) == Some(Normal(p.run)) &&
      at + 20 <= |out| && FromBE(out[at + 16..at + 20]) == |out| + 8
  {
    hide Parse, Flat, NewKids, NormalTrun, Locatable, RunAt, Regular, NewMoof, FromBE, Locate, Compact, NewSize, KidAt;
    var kids := Outcome(b, mdatSize, d);
    var p := PlanOf(b, d).value;
    RunReadsBack(p.place, kids, p.run, |NewMoof(p.place, kids)| + 8, later);
  }

  /** Normalizing a normalized moof changes nothing. */
  lemma NormalizeTwice(b: seq<Byte>, mdatSize: nat, d: F.Defaults, again: nat, later: F.Defaults)
    requires Compact(b) && Defaults32(d) && Normalize(b, mdatSize, d).Some?
    requires |Normalize(b, mdatSize, d).value| + 8 <= MaxU32
    ensures Normalize(Normalize(b, mdatSize, d).value, again, later) == Normalize(b, mdatSize, d)
  {
    hide Parse, Flat, NewKids, NormalTrun, Locatable, RunAt, Regular, NewMoof, Locate, NewSize, Compact, KidAt;
    var kids := Outcome(b, mdatSize, d);
    var p := PlanOf(b, d).value;
    var out := Normalize(b, mdatSize, d).value;
    SamplesKept(b, mdatSize, d, later);
    var w, run := Locate(out).value, Normal(p.run);
    SameRun(p.run, |out| + 8);
    var trun := kids[p.place.k].all;
    assert w.Traf().kids == kids;
    Settled(w, Change(NormalTrun(run, 0), false, 0, 0), NormalTrun(run, 0));
    SettledSize(w, run, |out| + 8);
    SettledMoof(p.place, kids);
    var ch := ChangeOf(out, again, PlanOf(out, later).value);
    Settled(w, ch, trun);
    assert kids[p.place.k := kids[p.place.k]] == kids;
  }

  lemma SameRun(run: Run, dataOffset: nat)
    requires Regular(run)
    ensures NormalTrun(Normal(run), dataOffset) == NormalTrun(run, dataOffset)
  {
    hide EntriesBytes, HasBit, Fields32, FullBox;
    NormalBits(run.flags);
  }

  /** A rebuild that moves nothing only replaces the run. */
  lemma Settled(w: Place, ch: Change, trun: seq<Byte>)
    requires w.Inside() && ch.delta == 0 && ch.trun == trun
    ensures NewKids(w, |w.Traf().kids|, ch) == Some(w.Traf().kids[w.k := Node("trun", 8, trun, [])])
  {
    SettledTo(w, ch, |w.Traf().kids|);
    var all := w.Traf().kids;
    assert all[..|all|] == all;
  }

  lemma {:induction false} SettledTo(w: Place, ch: Change, n: nat)
    requires w.Inside() && ch.delta == 0 && n <= |w.Traf().kids|
    ensures var kids := w.Traf().kids;
      NewKids(w, n, ch) ==
      Some(if w.k < n then kids[..n][w.k := Node("trun", 8, ch.trun, [])] else kids[..n])
  {
    if n > 0 {
      SettledTo(w, ch, n - 1);
      var kids := w.Traf().kids;
      var trun := Node("trun", 8, ch.trun, []);
      assert kids[..n] == kids[..n - 1] + [kids[n - 1]];
      if w.k == n - 1 {
        assert kids[..n][w.k := trun] == kids[..n - 1] + [trun];
      } else if w.k < n - 1 {
        assert kids[..n][w.k := trun] == kids[..n - 1][w.k := trun] + [kids[n - 1]];
      }
    }
  }

  lemma SettledSize(w: Place, run: Run, dataOffset: nat)
    requires w.Inside() && w.Trun() == Node("trun", 8, NormalTrun(run, dataOffset), [])
    ensures NewSize(w, run) == Some(|NewMoof(w, w.Traf().kids)|)
  {
    hide NormalTrun, NewMoof, NewKids;
    var kids := w.Traf().kids;
    var first := kids[w.k := Node("trun", 8, NormalTrun(run, 0), [])];
    Settled(w, Change(NormalTrun(run, 0), false, 0, 0), NormalTrun(run, 0));
    TrunLength(run, 0, dataOffset);
    SameSize(w, first, kids);
  }

  lemma SettledMoof(w: Place, kids: seq<Node>)
    requires w.Inside() && |kids| == |w.Traf().kids|
    ensures NewMoof(Place(NewMoofNode(w, kids), w.j, w.k), kids) == NewMoof(w, kids)
  {
    hide Flat, Box;
    MoofIsBox(w, kids);
  }

  // ---- bytes that stay, and where they go

  predicate InSaio(kids: seq<Node>, q: nat) {
    exists i | 0 <= i < |kids| :: kids[i].name == "saio" &&
      |Flat(kids[..i])| <= q < |Flat(kids[..i])| + |kids[i].all|
  }

  /** The children are the same outside the auxiliary offset boxes. */
  predicate SameBut(a: seq<Node>, b: seq<Node>) {
    |a| == |b| && forall i | 0 <= i < |a| :: |a[i].all| == |b[i].all| && (a[i].name != "saio" ==> a[i].all == b[i].all)
  }

  lemma {:induction false} FlatSame(a: seq<Node>, b: seq<Node>, q: nat)
    requires SameBut(a, b) && q < |Flat(a)| && !InSaio(a, q)
    ensures |Flat(a)| == |Flat(b)| && Flat(a)[q] == Flat(b)[q]
  {
    FlatLengths(a, b);
    var n := |a| - 1;
    if a != [] {
      FlatLengths(a[..n], b[..n]);
      if q < |Flat(a[..n])| {
        if InSaio(a[..n], q) {
          InSaioPrefix(a, n, q);
        }
        FlatSame(a[..n], b[..n], q);
      } else {
        NotInLast(a, q);
      }
    }
  }

  lemma NotInLast(a: seq<Node>, q: nat)
    requires a != [] && |Flat(a[..|a| - 1])| <= q < |Flat(a)| && !InSaio(a, q)
    ensures a[|a| - 1].name != "saio"
  {
    var n := |a| - 1;
    assert |Flat(a)| == |Flat(a[..n])| + |a[n].all|;
  }

  lemma InSaioPrefix(a: seq<Node>, n: nat, q: nat)
    requires n <= |a| && InSaio(a[..n], q)
    ensures InSaio(a, q)
  {
    hide Flat;
    var i :| 0 <= i < n && a[..n][i].name == "saio" && |Flat(a[..n][..i])| <= q < |Flat(a[..n][..i])| + |a[..n][i].all|;
    assert a[..n][..i] == a[..i] && a[..n][i] == a[i];
  }

  lemma InSaioSuffix(a: seq<Node>, n: nat, q: nat)
    requires n <= |a| && InSaio(a[n..], q)
    ensures InSaio(a, |Flat(a[..n])| + q)
  {
    hide Flat;
    var i :| 0 <= i < |a| - n && a[n..][i].name == "saio" &&
      |Flat(a[n..][..i])| <= q < |Flat(a[n..][..i])| + |a[n..][i].all|;
    assert a[..n] + a[n..][..i] == a[..n + i] && a[n..][i] == a[n + i];
    FlatConcat(a[..n], a[n..][..i]);
  }

  /** Outside the headers of moof and traf, the run and the auxiliary offset boxes. */
  predicate Untouched(w: Place, p: nat)
    requires w.Inside()
  {
    && 8 <= p && !(w.TrafAt() <= p < w.TrafAt() + 8) && !(w.TrunAt() <= p < w.TrunEnd())
    && (p >= w.TrafAt() + 8 ==> !InSaio(w.Traf().kids, p - w.TrafAt() - 8))
  }

  /** Where a byte of moof and mdat goes. */
  function Moved(p: nat, runEnd: nat, delta: int): int {
    if p < runEnd then p else p + delta
  }

  predicate SameByte(x: seq<Byte>, p: int, y: seq<Byte>, q: int) {
    0 <= p < |x| && 0 <= q < |y| && x[p] == y[q]
  }

  lemma SameAt(pre: seq<Byte>, part: seq<Byte>, post: seq<Byte>, pre2: seq<Byte>, part2: seq<Byte>, post2: seq<Byte>,
               i: nat)
    requires i < |part| && i < |part2| && part[i] == part2[i]
    ensures (pre + part + post)[|pre| + i] == (pre2 + part2 + post2)[|pre2| + i]
  {
  }

  /** The parts of a moof with its mdat. */
  datatype Parts = Parts(head: seq<Byte>, before: seq<Byte>, trafHead: seq<Byte>, front: seq<Byte>, run: seq<Byte>,
                         back: seq<Byte>, after: seq<Byte>)
  {
    function Bytes(): seq<Byte> {
      head + before + trafHead + front + run + back + after
    }
  }

  lemma PartsAgreeBefore(x: Parts, y: Parts, p: nat)
    requires |x.head| == |y.head| == 8 && x.before == y.before && |x.trafHead| == |y.trafHead| == 8
    requires |x.front| == |y.front|
    requires 8 <= p < 16 + |x.before| + |x.front| && !(8 + |x.before| <= p < 16 + |x.before|)
    requires p >= 16 + |x.before| ==> x.front[p - 16 - |x.before|] == y.front[p - 16 - |x.before|]
    ensures SameByte(x.Bytes(), p, y.Bytes(), p)
  {
    var x3, y3 := x.head + x.before + x.trafHead, y.head + y.before + y.trafHead;
    if p < 8 + |x.before| {
      SameAt(x.head, x.before, x.trafHead + x.front + x.run + x.back + x.after,
             y.head, y.before, y.trafHead + y.front + y.run + y.back + y.after, p - 8);
      assert x.Bytes() == x.head + x.before + (x.trafHead + x.front + x.run + x.back + x.after);
      assert y.Bytes() == y.head + y.before + (y.trafHead + y.front + y.run + y.back + y.after);
    } else {
      SameAt(x3, x.front, x.run + x.back + x.after, y3, y.front, y.run + y.back + y.after, p - |x3|);
      assert x.Bytes() == x3 + x.front + (x.run + x.back + x.after);
      assert y.Bytes() == y3 + y.front + (y.run + y.back + y.after);
    }
  }

  lemma PartsAgreeAfter(x: Parts, y: Parts, p: nat)
    requires |x.head| == |y.head| == 8 && x.before == y.before && |x.trafHead| == |y.trafHead| == 8
    requires |x.front| == |y.front| && |x.back| == |y.back| && x.after == y.after
    requires var backAt := 16 + |x.before| + |x.front| + |x.run|;
      backAt <= p < |x.Bytes()| && (p < backAt + |x.back| ==> x.back[p - backAt] == y.back[p - backAt])
    ensures SameByte(x.Bytes(), p, y.Bytes(), p + |y.run| - |x.run|)
  {
    var backAt := 16 + |x.before| + |x.front| + |x.run|;
    var x5 := x.head + x.before + x.trafHead + x.front + x.run;
    var y5 := y.head + y.before + y.trafHead + y.front + y.run;
    if p < backAt + |x.back| {
      SameAt(x5, x.back, x.after, y5, y.back, y.after, p - backAt);
    } else {
      SameAt(x5 + x.back, x.after, [], y5 + y.back, y.after, [], p - backAt - |x.back|);
      assert x.Bytes() + [] == x.Bytes() && y.Bytes() + [] == y.Bytes();
    }
  }

  lemma PartsAgree(x: Parts, y: Parts, p: nat)
    requires |x.head| == |y.head| == 8 && x.before == y.before && |x.trafHead| == |y.trafHead| == 8
    requires |x.front| == |y.front| && |x.back| == |y.back| && x.after == y.after
    requires var trafAt := 8 + |x.before|;
      var frontAt := trafAt + 8;
      var runAt := frontAt + |x.front|;
      var backAt := runAt + |x.run|;
      8 <= p < |x.Bytes()| && !(trafAt <= p < frontAt) && !(runAt <= p < backAt) &&
      (frontAt <= p < runAt ==> x.front[p - frontAt] == y.front[p - frontAt]) &&
      (backAt <= p < backAt + |x.back| ==> x.back[p - backAt] == y.back[p - backAt])
    ensures |y.Bytes()| - |x.Bytes()| == |y.run| - |x.run|
    ensures SameByte(x.Bytes(), p, y.Bytes(), Moved(p, 16 + |x.before| + |x.front| + |x.run|, |y.run| - |x.run|))
  {
    PartsLengths(x, y);
    hide Parts.Bytes;
    if p < 16 + |x.before| + |x.front| {
      PartsAgreeBefore(x, y, p);
    } else {
      PartsAgreeAfter(x, y, p);
    }
  }

  lemma PartsLengths(x: Parts, y: Parts)
    requires |x.head| == |y.head| && |x.before| == |y.before| && |x.trafHead| == |y.trafHead|
    requires |x.front| == |y.front| && |x.back| == |y.back| && |x.after| == |y.after|
    ensures |y.Bytes()| - |x.Bytes()| == |y.run| - |x.run|
  {
  }

  /** The parts of a moof whose headers are compact, under these children. */
  function PartsOf(w: Place, head: seq<Byte>, trafHead: seq<Byte>, kids: seq<Node>, mdat: seq<Byte>): Parts
    requires w.Inside() && w.k < |kids|
  {
    Parts(head, Flat(w.moof.kids[..w.j]), trafHead, Flat(kids[..w.k]), kids[w.k].all, Flat(kids[w.k + 1..]),
          Flat(w.moof.kids[w.j + 1..]) + mdat)
  }

  lemma OldParts(b: seq<Byte>, mdat: seq<Byte>)
    requires Compact(b)
    ensures var w := Locate(b).value;
      b + mdat == PartsOf(w, b[..8], w.Traf().all[..8], w.Traf().kids, mdat).Bytes()
  {
    hide Parse, Flat, Locate, Ranged, Built;
    CompactBoxes(b);
    var w := Locate(b).value;
    FlatCut(w.moof.kids, w.j);
    FlatCut(w.Traf().kids, w.k);
    Regroup(b[..8], Flat(w.moof.kids[..w.j]), w.Traf().all[..8], Flat(w.Traf().kids[..w.k]), w.Trun().all,
            Flat(w.Traf().kids[w.k + 1..]), Flat(w.moof.kids[w.j + 1..]), mdat);
  }

  lemma Regroup(a: seq<Byte>, b: seq<Byte>, c: seq<Byte>, d: seq<Byte>, e: seq<Byte>, f: seq<Byte>, g: seq<Byte>,
                h: seq<Byte>)
    ensures a + (b + (c + (d + e + f)) + g) + h == a + b + c + d + e + f + (g + h)
  {
  }

  lemma NewParts(w: Place, kids: seq<Node>, mdat: seq<Byte>)
    requires w.Inside() && w.k < |kids|
    ensures NewMoof(w, kids) + mdat ==
      PartsOf(w, NewMoof(w, kids)[..8], Box("traf", Flat(kids))[..8], kids, mdat).Bytes()
  {
    hide Flat, Box, NewMoof, PartsOf, Parts.Bytes;
    var moof, traf := NewMoof(w, kids), Box("traf", Flat(kids));
    var b, g := Flat(w.moof.kids[..w.j]), Flat(w.moof.kids[w.j + 1..]);
    var d, e, f := Flat(kids[..w.k]), kids[w.k].all, Flat(kids[w.k + 1..]);
    MoofSplit(w, kids);
    assert traf == traf[..8] + (d + e + f) by {
      BoxPayload("traf", Flat(kids));
      FlatCut(kids, w.k);
    }
    Glue(moof, traf, b, d, e, f, g, mdat);
    PartsBytes(w, moof[..8], traf[..8], kids, mdat);
  }

  lemma PartsBytes(w: Place, head: seq<Byte>, trafHead: seq<Byte>, kids: seq<Node>, mdat: seq<Byte>)
    requires w.Inside() && w.k < |kids|
    ensures PartsOf(w, head, trafHead, kids, mdat).Bytes() ==
      head + Flat(w.moof.kids[..w.j]) + trafHead + Flat(kids[..w.k]) + kids[w.k].all + Flat(kids[w.k + 1..]) +
      (Flat(w.moof.kids[w.j + 1..]) + mdat)
  {
    hide Flat;
  }

  lemma Glue(moof: seq<Byte>, traf: seq<Byte>, b: seq<Byte>, d: seq<Byte>, e: seq<Byte>, f: seq<Byte>, g: seq<Byte>,
             mdat: seq<Byte>)
    requires |moof| >= 8 && |traf| >= 8
    requires moof == moof[..8] + (b + traf + g) && traf == traf[..8] + (d + e + f)
    ensures moof + mdat == moof[..8] + b + traf[..8] + d + e + f + (g + mdat)
  {
    Regroup(moof[..8], b, traf[..8], d, e, f, g, mdat);
  }

  lemma MoofSplit(w: Place, kids: seq<Node>)
    requires w.Inside()
    ensures |NewMoof(w, kids)| >= 8
    ensures NewMoof(w, kids) == NewMoof(w, kids)[..8] +
      (Flat(w.moof.kids[..w.j]) + Box("traf", Flat(kids)) + Flat(w.moof.kids[w.j + 1..]))
  {
    hide Flat;
    BoxPayload("moof", Flat(w.moof.kids[..w.j]) + Box("traf", Flat(kids)) + Flat(w.moof.kids[w.j + 1..]));
  }

  /** The children of the rebuilt traf, but the run, are as they were outside the auxiliary offset boxes. */
  lemma KidsSameBut(w: Place, ch: Change, kids: seq<Node>)
    requires w.Inside() && w.Trun().name == "trun" && NewKids(w, |w.Traf().kids|, ch) == Some(kids)
    ensures SameBut(w.Traf().kids[..w.k], kids[..w.k]) && SameBut(w.Traf().kids[w.k + 1..], kids[w.k + 1..])
  {
    hide NewKid, NewKids;
    var n := |w.Traf().kids|;
    forall i | 0 <= i < n && i != w.k
      ensures |kids[i].all| == |w.Traf().kids[i].all|
      ensures w.Traf().kids[i].name != "saio" ==> kids[i].all == w.Traf().kids[i].all
    {
      NewKidsAt(w, n, ch, i);
      NewKidIs(w, i, ch);
    }
  }

  /** A byte of the front or the back of the traf, outside the auxiliary offset boxes, is the same. */
  lemma KidBytesSame(w: Place, ch: Change, kids: seq<Node>, q: nat)
    requires w.Inside() && w.Trun().name == "trun" && NewKids(w, |w.Traf().kids|, ch) == Some(kids)
    requires !InSaio(w.Traf().kids, q)
    ensures var old_ := w.Traf().kids;
      var front, run := |Flat(old_[..w.k])|, |w.Trun().all|;
      |Flat(kids[..w.k])| == front && |Flat(kids[w.k + 1..])| == |Flat(old_[w.k + 1..])| &&
      (q < front ==> Flat(kids[..w.k])[q] == Flat(old_[..w.k])[q]) &&
      (front + run <= q < front + run + |Flat(old_[w.k + 1..])| ==>
         Flat(kids[w.k + 1..])[q - front - run] == Flat(old_[w.k + 1..])[q - front - run])
  {
    hide NewKids, Flat;
    var old_ := w.Traf().kids;
    var front, run := |Flat(old_[..w.k])|, |w.Trun().all|;
    KidsSameBut(w, ch, kids);
    FlatLengths(kids[..w.k], old_[..w.k]);
    FlatLengths(kids[w.k + 1..], old_[w.k + 1..]);
    if q < front {
      if InSaio(old_[..w.k], q) {
        InSaioPrefix(old_, w.k, q);
      }
      FlatSame(old_[..w.k], kids[..w.k], q);
    } else if front + run <= q < front + run + |Flat(old_[w.k + 1..])| {
      FlatPrefix(old_, w.k);
      if InSaio(old_[w.k + 1..], q - front - run) {
        InSaioSuffix(old_, w.k + 1, q - front - run);
      }
      FlatSame(old_[w.k + 1..], kids[w.k + 1..], q - front - run);
    }
  }

  lemma FlatPrefix(nodes: seq<Node>, k: nat)
    requires k < |nodes|
    ensures |Flat(nodes[..k + 1])| == |Flat(nodes[..k])| + |nodes[k].all|
  {
    assert nodes[..k + 1][..k] == nodes[..k];
  }

  lemma PartsMove(w: Place, ch: Change, kids: seq<Node>, x: Parts, y: Parts, p: nat)
    requires w.Inside() && w.moof.head == 8 && w.Traf().head == 8 && w.Trun().name == "trun"
    requires NewKids(w, |w.Traf().kids|, ch) == Some(kids)
    requires |x.head| == |y.head| == |x.trafHead| == |y.trafHead| == 8
    requires x.before == y.before == Flat(w.moof.kids[..w.j]) && x.after == y.after
    requires x.front == Flat(w.Traf().kids[..w.k]) && x.run == w.Trun().all && x.back == Flat(w.Traf().kids[w.k + 1..])
    requires y.front == Flat(kids[..w.k]) && y.back == Flat(kids[w.k + 1..])
    requires p < |x.Bytes()| && Untouched(w, p)
    ensures SameByte(x.Bytes(), p, y.Bytes(), Moved(p, w.TrunEnd(), |y.Bytes()| - |x.Bytes()|))
  {
    hide NewKids, NewKid, Flat, InSaio, Parts.Bytes, SameByte;
    if p >= w.TrafAt() + 8 {
      KidBytesSame(w, ch, kids, p - w.TrafAt() - 8);
    } else {
      KidsSameBut(w, ch, kids);
      FlatLengths(w.Traf().kids[..w.k], kids[..w.k]);
      FlatLengths(w.Traf().kids[w.k + 1..], kids[w.k + 1..]);
    }
    PartsAgree(x, y, p);
  }

  /**
   * Every byte of moof and mdat outside the rewritten fields is in the result: before
   * the end of the old run at its old place, from there on moved by what the moof grew.
   */
  lemma BytesMove(b: seq<Byte>, mdat: seq<Byte>, d: F.Defaults, p: nat)
    requires Compact(b) && Defaults32(d) && Normalize(b, |mdat|, d).Some?
    requires |Normalize(b, |mdat|, d).value| + 8 <= MaxU32
    requires p < |b + mdat| && Untouched(Locate(b).value, p)
    ensures var out := Normalize(b, |mdat|, d).value;
      SameByte(b + mdat, p, out + mdat, Moved(p, Locate(b).value.TrunEnd(), |out| - |b|))
  {
    hide Parse, Flat, Locate, PlanOf, NewKids, NewMoof, ChangeOf, Box, Compact, Normalize, Defaults32, Parts.Bytes,
         SameByte, Untouched, Built, Ranged, PartsOf;
    var kids, ch := OutcomeKids(b, |mdat|, d);
    CompactHeads(b);
    var w := Locate(b).value;
    var out := NewMoof(w, kids);
    var x := PartsOf(w, b[..8], w.Traf().all[..8], w.Traf().kids, mdat);
    var y := PartsOf(w, out[..8], Box("traf", Flat(kids))[..8], kids, mdat);
    OldParts(b, mdat);
    NewParts(w, kids, mdat);
    PartsAre(w, b[..8], w.Traf().all[..8], w.Traf().kids, mdat);
    PartsAre(w, out[..8], Box("traf", Flat(kids))[..8], kids, mdat);
    PartsMove(w, ch, kids, x, y, p);
  }

  lemma PartsAre(w: Place, head: seq<Byte>, trafHead: seq<Byte>, kids: seq<Node>, mdat: seq<Byte>)
    requires w.Inside() && w.k < |kids|
    ensures var x := PartsOf(w, head, trafHead, kids, mdat);
      x.head == head && x.before == Flat(w.moof.kids[..w.j]) && x.trafHead == trafHead &&
      x.front == Flat(kids[..w.k]) && x.run == kids[w.k].all && x.back == Flat(kids[w.k + 1..]) &&
      x.after == Flat(w.moof.kids[w.j + 1..]) + mdat
  {
    hide Flat;
  }

  lemma OutcomeKids(b: seq<Byte>, mdatSize: nat, d: F.Defaults) returns (kids: seq<Node>, ch: Change)
    requires Compact(b) && Defaults32(d) && Normalize(b, mdatSize, d).Some?
    requires |Normalize(b, mdatSize, d).value| + 8 <= MaxU32
    ensures Locate(b).Some? && |kids| == |Locate(b).value.Traf().kids|
    ensures NewKids(Locate(b).value, |Locate(b).value.Traf().kids|, ch) == Some(kids)
    ensures Normalize(b, mdatSize, d).value == NewMoof(Locate(b).value, kids)
    ensures |NewMoof(Locate(b).value, kids)| >= 8 && Locate(b).value.Trun().name == "trun"
    ensures ch.delta == |NewMoof(Locate(b).value, kids)| - |b| && ch.limit == |b| + mdatSize
    ensures Locate(NewMoof(Locate(b).value, kids)) ==
      Some(Place(NewMoofNode(Locate(b).value, kids), Locate(b).value.j, Locate(b).value.k))
  {
    hide Parse, Flat, NewKids, Box, Regular, NormalTrun;
    kids := Outcome(b, mdatSize, d);
    ch := ChangeOf(b, mdatSize, PlanOf(b, d).value);
    CompactBoxes(b);
  }

  lemma CompactHeads(b: seq<Byte>)
    requires Compact(b)
    ensures Locate(b).Some? && |b| >= 8 && Locate(b).value.moof.head == 8 && Locate(b).value.Traf().head == 8
    ensures |Locate(b).value.Traf().all| >= 8
  {
    hide Parse, Flat, Locate;
  }

  // ---- auxiliary information offsets

  lemma {:induction false} MovedEntry(entries: seq<Byte>, width: nat, i: nat, limit: nat, runEnd: nat, delta: int, n: nat)
    requires (width == 4 || width == 8) && width * i <= |entries| && n < i
    requires MoveEntries(entries, width, i, limit, runEnd, delta).Some?
    requires (if width == 4 then MaxU32 else MaxU64) >= limit + delta
    ensures 0 <= width * n && width * (n + 1) <= width * i
    ensures var was := FromBE(entries[width * n..width * (n + 1)]);
      was < limit &&
      FromBE(MoveEntries(entries, width, i, limit, runEnd, delta).value[width * n..width * (n + 1)]) ==
      Moved(was, runEnd, delta)
    decreases i
  {
    hide BE, FromBE;
    EntryInside(width, n, i);
    var all := MoveEntries(entries, width, i, limit, runEnd, delta).value;
    var before := MoveEntries(entries, width, i - 1, limit, runEnd, delta).value;
    var was := FromBE(entries[width * (i - 1)..width * i]);
    if n == i - 1 {
      var last := MoveEntry(was, limit, runEnd, delta).value;
      Pow256Values();
      FromBEBound(entries[width * (i - 1)..width * i]);
      assert all[width * n..width * (n + 1)] == BE(width, last);
      ReadBackBE(width, last);
    } else {
      MovedEntry(entries, width, i - 1, limit, runEnd, delta, n);
      assert all[width * n..width * (n + 1)] == before[width * n..width * (n + 1)];
    }
  }

  /** A corrected box: the same layout, and each entry moves with what it names. */
  lemma SaioCorrected(c: Node, found: bool, limit: nat, runEnd: nat, delta: int, n: nat)
    requires CorrectSaio(c, found, limit, runEnd, delta).Some? && n < SaioLayout(c.all[c.head..]).value.2
    requires limit + delta <= MaxU32
    ensures var moved := c.(all := CorrectSaio(c, found, limit, runEnd, delta).value);
      SaioLayout(moved.all[c.head..]) == SaioLayout(c.all[c.head..]) && Entry(c, n) < limit &&
      Entry(moved, n) == Moved(Entry(c, n), runEnd, delta)
  {
    hide BE, FromBE, SaioLayout, MoveEntries, CorrectSaio;
    CorrectedLayout(c, found, limit, runEnd, delta);
    var (start, width, count) := SaioLayout(c.all[c.head..]).value;
    SaioFits(c.all[c.head..]);
    var entries := c.all[c.head + start..];
    var moved := MoveEntries(entries, width, count, limit, runEnd, delta).value;
    MovedEntry(entries, width, count, limit, runEnd, delta, n);
    EntryInside(width, n, count);
    SliceOfPrefix(CorrectSaio(c, found, limit, runEnd, delta).value[c.head + start..], moved, width * n, width * (n + 1));
  }

  lemma CorrectedLayout(c: Node, found: bool, limit: nat, runEnd: nat, delta: int)
    requires CorrectSaio(c, found, limit, runEnd, delta).Some?
    ensures SaioLayout(c.all[c.head..]).Some?
    ensures var (start, width, count), moved :=
        SaioLayout(c.all[c.head..]).value, CorrectSaio(c, found, limit, runEnd, delta).value;
      (width == 4 || width == 8) && start <= |c.all| - c.head && width * count <= |c.all| - c.head - start &&
      |moved| == |c.all| && SaioLayout(moved[c.head..]) == SaioLayout(c.all[c.head..]) &&
      MoveEntries(c.all[c.head + start..], width, count, limit, runEnd, delta).Some? &&
      MoveEntries(c.all[c.head + start..], width, count, limit, runEnd, delta).value <= moved[c.head + start..]
  {
    hide BE, FromBE, SaioLayout, Put, MoveEntries;
    var body := c.all[c.head..];
    var (start, width, count) := SaioLayout(body).value;
    SaioFits(body);
    DropOfDrop(c.all, c.head, start);
    var moved := MoveEntries(c.all[c.head + start..], width, count, limit, runEnd, delta).value;
    PutSlices(c.all, c.head + start, moved);
    PutField(c, start, moved);
    var all := Put(c.all, c.head + start, moved);
    LayoutPrefix(body, all[c.head..]);
    SliceOfDrop(all, c.head + start, 0, |moved|);
  }

  predicate HasEntry(c: Node, n: nat) {
    c.head <= |c.all| && SaioLayout(c.all[c.head..]).Some? && n < SaioLayout(c.all[c.head..]).value.2
  }

  /** The same box with entry `n` moved, or not even that. */
  predicate EntryMoved(c: Node, r: Node, n: nat, runEnd: nat, delta: int) {
    HasEntry(c, n) && HasEntry(r, n) && SaioLayout(r.all[r.head..]) == SaioLayout(c.all[c.head..]) &&
    Entry(r, n) == Moved(Entry(c, n), runEnd, delta)
  }

  lemma KidEntryMoved(w: Place, ch: Change, i: nat, n: nat)
    requires w.Inside() && i < |w.Traf().kids| && w.Traf().kids[i].name == "saio" && w.Trun().name == "trun"
    requires HasEntry(w.Traf().kids[i], n) && NewKid(w, i, ch).Some? && ch.limit + ch.delta <= MaxU32
    ensures EntryMoved(w.Traf().kids[i], NewKid(w, i, ch).value, n, w.TrunEnd(), ch.delta)
  {
    hide SaioLayout, Entry, CorrectSaio, Flat;
    var c := w.Traf().kids[i];
    NewKidIs(w, i, ch);
    if ch.delta != 0 {
      SaioCorrected(c, ch.found, ch.limit, w.TrunEnd(), ch.delta, n);
    }
  }

  /** The auxiliary offset boxes of the result, at the same place among the children. */
  lemma AuxiliaryMoves(b: seq<Byte>, mdatSize: nat, d: F.Defaults, i: nat, n: nat)
    requires Compact(b) && Defaults32(d) && Normalize(b, mdatSize, d).Some?
    requires |Normalize(b, mdatSize, d).value| + mdatSize <= MaxU32 && |Normalize(b, mdatSize, d).value| + 8 <= MaxU32
    requires i < |Locate(b).value.Traf().kids| && Locate(b).value.Traf().kids[i].name == "saio"
    requires HasEntry(Locate(b).value.Traf().kids[i], n)
    ensures var out := Normalize(b, mdatSize, d).value;
      Locate(out).Some? && i < |Locate(out).value.Traf().kids| &&
      EntryMoved(Locate(b).value.Traf().kids[i], Locate(out).value.Traf().kids[i], n, Locate(b).value.TrunEnd(),
                 |out| - |b|)
  {
    hide Parse, Flat, NewKids, NewKid, NewMoof, Locate, Normalize, Defaults32, Compact, HasEntry, EntryMoved;
    var kids, ch := OutcomeKids(b, mdatSize, d);
    var w := Locate(b).value;
    NewKidsAt(w, |w.Traf().kids|, ch, i);
    KidEntryMoved(w, ch, i, n);
  }

  /**
   * Each auxiliary information offset of the traf names the byte it named before: in
   * the result it is the same offset, or one moved by what the moof grew when it is
   * at or behind the end of the old run, wherever senc is.
   */
  lemma AuxiliaryKept(b: seq<Byte>, mdat: seq<Byte>, d: F.Defaults, i: nat, n: nat)
    requires Compact(b) && Defaults32(d) && Normalize(b, |mdat|, d).Some?
    requires |Normalize(b, |mdat|, d).value| + |mdat| <= MaxU32 && |Normalize(b, |mdat|, d).value| + 8 <= MaxU32
    requires i < |Locate(b).value.Traf().kids| && Locate(b).value.Traf().kids[i].name == "saio"
    requires HasEntry(Locate(b).value.Traf().kids[i], n)
    requires Entry(Locate(b).value.Traf().kids[i], n) < |b + mdat|
    requires Untouched(Locate(b).value, Entry(Locate(b).value.Traf().kids[i], n))
    ensures var out := Normalize(b, |mdat|, d).value;
      Locate(out).Some? && i < |Locate(out).value.Traf().kids| && HasEntry(Locate(out).value.Traf().kids[i], n) &&
      SameByte(b + mdat, Entry(Locate(b).value.Traf().kids[i], n),
               out + mdat, Entry(Locate(out).value.Traf().kids[i], n))
  {
    hide Parse, Flat, Locate, Normalize, Untouched, SameByte, SaioLayout, Defaults32;
    AuxiliaryMoves(b, |mdat|, d, i, n);
    BytesMove(b, mdat, d, Entry(Locate(b).value.Traf().kids[i], n));
  }
}
