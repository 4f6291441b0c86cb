/**
 * What a normalized moof is: the same boxes with the run written out, the same
 * samples, a data offset behind the new moof, auxiliary offsets that still name the
 * same bytes; and normalizing it again changes nothing.
 */
module TrunNormalizeTree {
  import opened Bytes
  import opened Mp4Boxes
  import opened BoxWriter
  import opened CmafRebase
  import opened CmafRebaseTree
  import opened TrunNormalize
  import opened TrunNormalizeRead
  import F = FragmentReader

  /** One moof with compact headers and no stray bytes behind its boxes or those of its traf. */
  predicate Compact(b: seq<Byte>) {
    Locate(b).Some? && |Parse(b).value| == 1 &&
    var w := Locate(b).value;
    w.moof.all == b && w.moof.head == 8 && w.Traf().head == 8 &&
    |b| == 8 + |Flat(w.moof.kids)| && |w.Traf().all| == 8 + |Flat(w.Traf().kids)|
  }

  // ---- children

  lemma {:induction false} NewKidsAt(w: Place, n: nat, ch: Change, i: nat)
    requires w.Inside() && i < n <= |w.Traf().kids| && NewKids(w, n, ch).Some?
    ensures NewKid(w, i, ch) == Some(NewKids(w, n, ch).value[i])
  {
    if i < n - 1 {
      NewKidsAt(w, n - 1, ch, i);
    }
  }

  /** A child of the rebuilt traf: the run under its name, any other box under its own header and in its old length. */
  lemma NewKidIs(w: Place, i: nat, ch: Change)
    requires w.Inside() && i < |w.Traf().kids| && NewKid(w, i, ch).Some? && w.Trun().name == "trun"
    ensures var c, n := w.Traf().kids[i], NewKid(w, i, ch).value;
      n.name == c.name && (i != w.k ==> |n.all| == |c.all| && n.head == c.head && n.kids == c.kids) &&
      (i != w.k && n.all != c.all ==> c.name == "saio" && c.head <= |c.all| && n.all[..c.head] == c.all[..c.head])
  {
    hide CorrectSaio;
    var c := w.Traf().kids[i];
    if i != w.k && c.name == "saio" && ch.delta != 0 {
      SaioHead(c, ch.found, ch.limit, w.TrunEnd(), ch.delta);
    }
  }

  lemma SaioHead(c: Node, found: bool, limit: nat, runEnd: nat, delta: int)
    requires CorrectSaio(c, found, limit, runEnd, delta).Some?
    ensures CorrectSaio(c, found, limit, runEnd, delta).value[..c.head] == c.all[..c.head]
  {
    hide SaioLayout, MoveEntries;
    var body := c.all[c.head..];
    SaioFits(body);
    var (start, width, count) := SaioLayout(body).value;
    var moved := MoveEntries(body[start..], width, count, limit, runEnd, delta).value;
    PutKeepsHead(c.all, c.head, c.head + start, moved);
  }

  lemma {:induction false} FlatLengths(a: seq<Node>, b: seq<Node>)
    requires |a| == |b| && forall i | 0 <= i < |a| :: |a[i].all| == |b[i].all|
    ensures |Flat(a)| == |Flat(b)|
  {
    if a != [] {
      FlatLengths(a[..|a| - 1], b[..|b| - 1]);
    }
  }

  /** A range cut at one node. */
  lemma FlatCut(nodes: seq<Node>, i: nat)
    requires i < |nodes|
    ensures Flat(nodes) == Flat(nodes[..i]) + nodes[i].all + Flat(nodes[i + 1..])
  {
    hide Flat;
    var rest := nodes[i..];
    assert nodes[..i] + rest == nodes;
    FlatConcat(nodes[..i], rest);
    FlatFirst(rest);
    DropOfDrop(nodes, i, 1);
    Regrouped(Flat(nodes[..i]), rest[0].all, Flat(nodes[i + 1..]));
  }

  lemma Regrouped(a: seq<Byte>, b: seq<Byte>, c: seq<Byte>)
    ensures a + (b + c) == a + b + c
  {
  }

  // ---- the boxes of a compact moof

  lemma RangedKids(n: Node)
    requires Built(n) && IsContainer(n.name) && |n.all| == n.head + |Flat(n.kids)|
    ensures Ranged(n.kids, []) && n.all == n.all[..n.head] + Flat(n.kids)
  {
    hide Parse, Flat, FromBE, Ranged;
    var tail := ParseTiles(n.all[n.head..]);
    assert |tail| == 0;
    assert Flat(n.kids) + tail == Flat(n.kids);
  }

  lemma CompactBoxes(b: seq<Byte>)
    requires Compact(b)
    ensures var w := Locate(b).value;
      Built(w.moof) && Ranged(w.moof.kids, []) && b == b[..8] + Flat(w.moof.kids) &&
      Built(w.Traf()) && Ranged(w.Traf().kids, []) && w.Traf().all == w.Traf().all[..8] + Flat(w.Traf().kids) &&
      w.Traf().name == "traf" && w.Trun().name == "trun" && w.moof.name == "moof"
  {
    hide Parse, Flat, FromBE, IsContainer;
    var w := Locate(b).value;
    var tail := ParseTiles(b);
    assert Placed(Parse(b).value[0], 0 == 0 && tail == []);
    MoofIsContainer();
    RangedKids(w.moof);
    assert Placed(w.moof.kids[w.j], w.j == |w.moof.kids| - 1);
    RangedKids(w.Traf());
  }

  lemma MoofIsContainer()
    ensures IsContainer("moof") && IsContainer("traf") && !IsContainer("trun") && !IsContainer("saio")
  {
  }

  lemma FinalPlaced(c: Node, n: Node, last: bool)
    requires Placed(c, last) && n.name == c.name && n.head == c.head && n.kids == c.kids && |n.all| == |c.all|
    requires n.all == c.all || (c.name == "saio" && n.all[..c.head] == c.all[..c.head])
    ensures Placed(n, last)
  {
    hide Parse, FromBE;
    if n.all == c.all {
      assert n == c;
    } else {
      MoofIsContainer();
      LeafRebuilt(c, n.all);
      assert n == Node(c.name, c.head, n.all, c.kids);
    }
  }

  lemma TrunPlaced(run: Run, dataOffset: nat, last: bool)
    requires |NormalTrun(run, dataOffset)| <= MaxU32
    ensures Placed(Node("trun", 8, NormalTrun(run, dataOffset), []), last)
  {
    hide NormalFlags, EntriesBytes, Built, Stated, BE;
    MoofIsContainer();
    FullBoxBuilt("trun", run.version, NormalFlags(run.flags),
                 BE(4, |run.samples|) + BE(4, dataOffset) + EntriesBytes(run.samples, HasBit(NormalFlags(run.flags), 11)));
  }

  lemma RangedFinal(w: Place, ch: Change, kids: seq<Node>, run: Run, dataOffset: nat)
    requires w.Inside() && Ranged(w.Traf().kids, []) && w.Trun().name == "trun"
    requires NewKids(w, |w.Traf().kids|, ch) == Some(kids)
    requires ch.trun == NormalTrun(run, dataOffset) && |ch.trun| <= MaxU32
    ensures Ranged(kids, [])
    ensures forall i | 0 <= i < |kids| :: kids[i].name == w.Traf().kids[i].name
    ensures forall i | 0 <= i < |kids| && i != w.k :: |kids[i].all| == |w.Traf().kids[i].all|
  {
    hide Placed, NormalTrun, NewKid, NewKids;
    var n := |w.Traf().kids|;
    forall i | 0 <= i < n
      ensures Placed(kids[i], i == n - 1)
      ensures kids[i].name == w.Traf().kids[i].name && (i != w.k ==> |kids[i].all| == |w.Traf().kids[i].all|)
    {
      NewKidsAt(w, n, ch, i);
      NewKidIs(w, i, ch);
      if i == w.k {
        NewTrun(w, ch);
        TrunPlaced(run, dataOffset, i == n - 1);
      } else {
        assert Placed(w.Traf().kids[i], i == n - 1);
        FinalPlaced(w.Traf().kids[i], kids[i], i == n - 1);
      }
    }
  }

  lemma NewTrun(w: Place, ch: Change)
    requires w.Inside()
    ensures NewKid(w, w.k, ch) == Some(Node("trun", 8, ch.trun, []))
  {
  }

  // ---- the tree of the result

  function NewTrafNode(kids: seq<Node>): Node {
    Node("traf", 8, Box("traf", Flat(kids)), kids)
  }

  function NewMoofKids(w: Place, kids: seq<Node>): (r: seq<Node>)
    requires w.Inside()
    ensures |r| == |w.moof.kids|
  {
    w.moof.kids[w.j := NewTrafNode(kids)]
  }

  function NewMoofNode(w: Place, kids: seq<Node>): Node
    requires w.Inside()
  {
    Node("moof", 8, NewMoof(w, kids), NewMoofKids(w, kids))
  }

  lemma MoofIsBox(w: Place, kids: seq<Node>)
    requires w.Inside()
    ensures NewMoof(w, kids) == Box("moof", Flat(NewMoofKids(w, kids)))
    ensures NewMoofKids(w, kids)[..w.j] == w.moof.kids[..w.j]
    ensures NewMoofKids(w, kids)[w.j + 1..] == w.moof.kids[w.j + 1..]
  {
    hide Box, Flat;
    var all := NewMoofKids(w, kids);
    assert all[..w.j] == w.moof.kids[..w.j] && all[w.j + 1..] == w.moof.kids[w.j + 1..];
    FlatCut(all, w.j);
  }

  lemma RebuiltParses(w: Place, kids: seq<Node>)
    requires w.Inside() && Ranged(w.moof.kids, []) && w.Traf().name == "traf" && Ranged(kids, [])
    requires |NewMoof(w, kids)| <= MaxU32
    ensures Built(NewMoofNode(w, kids)) && Stated(NewMoofNode(w, kids))
    ensures Parse(NewMoof(w, kids)) == Some([NewMoofNode(w, kids)])
  {
    hide Parse, Flat, Box, Built, Stated, Ranged;
    MoofIsContainer();
    MoofIsBox(w, kids);
    var all := NewMoofKids(w, kids);
    FlatCut(all, w.j);
    assert |Box("traf", Flat(kids))| <= |NewMoof(w, kids)|;
    Reparse(kids, []);
    assert Flat(kids) + [] == Flat(kids);
    BoxBuilt("traf", Flat(kids), kids);
    TrafInPlace(w, kids);
    Reparse(all, []);
    assert Flat(all) + [] == Flat(all);
    BoxBuilt("moof", Flat(all), all);
    ParseLast(NewMoofNode(w, kids));
  }

  lemma TrafInPlace(w: Place, kids: seq<Node>)
    requires w.Inside() && Ranged(w.moof.kids, []) && Built(NewTrafNode(kids)) && Stated(NewTrafNode(kids))
    ensures Ranged(NewMoofKids(w, kids), [])
  {
    hide Built, Stated, ToTheEnd, NewTrafNode;
    var all := NewMoofKids(w, kids);
    forall i | 0 <= i < |all|
      ensures Placed(all[i], i == |all| - 1)
    {
      assert Placed(w.moof.kids[i], i == |all| - 1);
    }
  }

  // ---- the theorem about one normalization

  /** Everything the rebuild of a compact moof does, in one place. */
  lemma Rebuilding(b: seq<Byte>, mdatSize: nat, d: F.Defaults) returns (kids: seq<Node>)
    requires Compact(b) && Normalize(b, mdatSize, d).Some? && |Normalize(b, mdatSize, d).value| <= MaxU32
    ensures var p := PlanOf(b, d).value;
      var w, ch := p.place, ChangeOf(b, mdatSize, p);
      w == Locate(b).value && NewKids(w, |w.Traf().kids|, ch) == Some(kids) && |kids| == |w.Traf().kids| &&
      Normalize(b, mdatSize, d) == Some(NewMoof(w, kids)) && Ranged(kids, []) && |ch.trun| <= MaxU32 &&
      kids[w.k] == Node("trun", 8, ch.trun, [])
    ensures forall i | 0 <= i < |kids| :: kids[i].name == Locate(b).value.Traf().kids[i].name
    ensures forall i | 0 <= i < |kids| && i != Locate(b).value.k ::
      |kids[i].all| == |Locate(b).value.Traf().kids[i].all|
  {
    hide Parse, Flat, Box, Built, Ranged, NewKids, NewKid, NormalTrun, Locatable, RunAt, NewSize, Locate;
    CompactBoxes(b);
    var p := PlanOf(b, d).value;
    var w, ch := p.place, ChangeOf(b, mdatSize, p);
    kids := NewKids(w, |w.Traf().kids|, ch).value;
    NewKidsAt(w, |w.Traf().kids|, ch, w.k);
    NewTrun(w, ch);
    TrunWithin(w, kids);
    RangedFinal(w, ch, kids, p.run, p.size + 8);
  }

  lemma TrunWithin(w: Place, kids: seq<Node>)
    requires w.Inside() && w.k < |kids|
    ensures |kids[w.k].all| <= |NewMoof(w, kids)|
  {
    hide Flat;
    FlatCut(kids, w.k);
  }

  /** The result is found to have the same boxes in the same places, and the run where it was. */
  lemma Relocated(w: Place, kids: seq<Node>)
    requires w.Inside() && |kids| == |w.Traf().kids| && kids[w.k].head == 8 && |kids[w.k].all| >= 16
    requires Parse(NewMoof(w, kids)) == Some([NewMoofNode(w, kids)]) && w.Traf().name == "traf"
    requires forall i | 0 <= i < |kids| :: kids[i].name == w.Traf().kids[i].name
    requires forall i | 0 <= i < |kids| && i != w.k :: |kids[i].all| == |w.Traf().kids[i].all|
    requires w.j == IndexOf(w.moof.kids, "traf") && w.k == IndexOf(w.Traf().kids, "trun")
    requires forall i | 0 <= i < |w.moof.kids| ::
      i == w.j || w.moof.kids[i].name != "traf" || Find(w.moof.kids[i].kids, "saio").None?
    requires w.moof.head == 8 && w.Traf().head == 8
    ensures Locate(NewMoof(w, kids)) == Some(Place(NewMoofNode(w, kids), w.j, w.k))
    ensures Place(NewMoofNode(w, kids), w.j, w.k).TrunAt() == w.TrunAt()
    ensures Place(NewMoofNode(w, kids), w.j, w.k).TrafAt() == w.TrafAt()
    ensures Compact(NewMoof(w, kids))
  {
    hide Parse, Flat, Box, Find;
    MoofIsBox(w, kids);
    SameIndex(NewMoofKids(w, kids), w.moof.kids, "traf");
    SameIndex(kids, w.Traf().kids, "trun");
    FlatLengths(kids[..w.k], w.Traf().kids[..w.k]);
  }
}
