/**
 * Splitting a live fragment of several tracks: each traf becomes a moof of its own,
 * with a mdat that holds the bytes of its run and nothing else.
 */
module TrafSplit {
  import opened Bytes
  import opened Mp4Boxes
  import opened BoxWriter
  import opened CmafRebase
  import opened TrunNormalizeTree
  import CmafRebaseTree
  import F = FragmentReader

  datatype Part = Part(moof: seq<Byte>, mdat: seq<Byte>)

  /** A track of the init segment; only its default sample size matters here. */
  datatype TrackDefault = TrackDefault(id: nat, size: Option<nat>)

  // ---- the bytes of a run

  /** The total size of the first `k` samples, and where their entries end; None for an exception. */
  function SizesTo(b: seq<Byte>, pos: nat, flags: nat, default_: nat, k: nat): Option<(nat, nat)> {
    if k == 0 then Some((0, pos))
    else
      var before := SizesTo(b, pos, flags, default_, k - 1);
      if before.None? then None
      else
        var at := before.value.1 + if HasBit(flags, 8) then 4 else 0;
        var size := F.Take(b, at, HasBit(flags, 9), default_);
        if size.None? || size.value.0 == 0 then None
        else
          Some((before.value.0 + size.value.0,
                size.value.1 + (if HasBit(flags, 10) then 4 else 0) + (if HasBit(flags, 11) then 4 else 0)))
  }

  /** The last track of this id that has a default size. */
  function DefaultSize(tracks: seq<TrackDefault>, id: nat): nat {
    if tracks == [] then 0
    else
      var t := tracks[|tracks| - 1];
      if t.id == id && t.size.Some? then t.size.value else DefaultSize(tracks[..|tracks| - 1], id)
  }

  function CountNamed(kids: seq<Node>, name: string): nat {
    if kids == [] then 0
    else CountNamed(kids[..|kids| - 1], name) + if kids[|kids| - 1].name == name then 1 else 0
  }

  /** The default sample size of a traf whose tfhd payload is at `at`. */
  function TrafDefault(b: seq<Byte>, at: nat, tracks: seq<TrackDefault>): Option<nat>
    requires at + 8 <= |b|
  {
    var flags := FromBE(b[at + 1..at + 4]);
    if HasBit(flags, 4) then
      var cursor := at + 8 + (if HasBit(flags, 1) then 4 else 0) + (if HasBit(flags, 3) then 4 else 0);
      if cursor + 4 > |b| then None else Some(FromBE(b[cursor..cursor + 4]))
    else Some(DefaultSize(tracks, FromBE(b[at + 4..at + 8])))
  }

  /** The bytes a run takes: where they start, as an offset from the moof, and how many they are. */
  datatype Span = Span(position: int, total: nat)

  /** The offsets in the moof of a box of a traf, and of its payload. */
  function ChildAt(moof: Node, j: nat, name: string): nat
    requires j < |moof.kids|
  {
    KidAt(moof, j) + KidAt(moof.kids[j], IndexOf(moof.kids[j].kids, name))
  }

  function PayloadAt(moof: Node, j: nat, name: string): nat
    requires j < |moof.kids| && Find(moof.kids[j].kids, name).Some?
  {
    ChildAt(moof, j, name) + Find(moof.kids[j].kids, name).value.head
  }

  /** The span of traf `j`; `previous` is the end of the traf before it, None for the first one. */
  function SpanOf(b: seq<Byte>, moof: Node, j: nat, previous: Option<nat>, tracks: seq<TrackDefault>): Option<Span>
    requires j < |moof.kids|
  {
    var t := moof.kids[j];
    if Find(t.kids, "tfhd").None? || |Payload(Find(t.kids, "tfhd").value)| < 8 || CountNamed(t.kids, "trun") != 1 ||
       Find(t.kids, "saio").Some? || Find(t.kids, "trun").None? || |Payload(Find(t.kids, "trun").value)| < 8
    then None
    else
      var head, run := PayloadAt(moof, j, "tfhd"), PayloadAt(moof, j, "trun");
      if head + 8 > |b| || run + 12 > |b| then None
      else
        var headFlags, flags := FromBE(b[head + 1..head + 4]), FromBE(b[run + 1..run + 4]);
        if HasBit(headFlags, 0) || TrafDefault(b, head, tracks).None? || !HasBit(flags, 0) then None
        else
          var entries := run + 12 + if HasBit(flags, 2) then 4 else 0;
          var sizes := SizesTo(b, entries, flags, TrafDefault(b, head, tracks).value, FromBE(b[run + 4..run + 8]));
          if sizes.None? then None
          else
            var base := if HasBit(headFlags, 17) || previous.None? then 0 else previous.value;
            Some(Span(base + Signed32(FromBE(b[run + 8..run + 12])), sizes.value.0))
  }

  // ---- one part

  /** The traf with its data offset pointing behind the new moof. */
  function Patched(t: Node, offset: nat): (r: seq<Byte>)
    requires Patchable(t)
    ensures |r| == |t.all|
  {
    Put(t.all, KidAt(t, IndexOf(t.kids, "trun")) + Find(t.kids, "trun").value.head + 8, BE(4, offset))
  }

  predicate Patchable(t: Node) {
    Find(t.kids, "trun").Some? &&
    KidAt(t, IndexOf(t.kids, "trun")) + Find(t.kids, "trun").value.head + 12 <= |t.all|
  }

  function MdatHead(mdat: seq<Byte>): nat
    requires |mdat| >= 8
  {
    if FromBE(mdat[..4]) == 1 then 16 else 8
  }

  /** The data offset a traf gets in its own moof. */
  function NewOffset(mfhd: Node, t: Node): nat {
    16 + |mfhd.all| + |t.all|
  }

  function PartOf(mdat: seq<Byte>, mfhd: Node, t: Node, start: nat, total: nat): Part
    requires Patchable(t) && start + total <= |mdat|
  {
    Part(Box("moof", mfhd.all + Patched(t, NewOffset(mfhd, t))), Box("mdat", mdat[start..start + total]))
  }

  /** The parts of the first `j` children of the moof, and the end of the last one's bytes; None for an exception. */
  function PartsTo(b: seq<Byte>, mdat: seq<Byte>, moof: Node, mfhd: Node, tracks: seq<TrackDefault>,
                   j: nat): (r: Option<(seq<Part>, Option<nat>)>)
    requires j <= |moof.kids| && |mdat| >= 8 && MdatHead(mdat) <= |mdat|
  {
    if j == 0 then Some(([], None))
    else
      var before := PartsTo(b, mdat, moof, mfhd, tracks, j - 1);
      var t := moof.kids[j - 1];
      if before.None? then None
      else if t.name != "traf" then before
      else
        var span := SpanOf(b, moof, j - 1, before.value.1, tracks);
        if span.None? || !Patchable(t) || !SpanFits(b, mdat, span.value) then None
        else
          Some((before.value.0 + [PartOf(mdat, mfhd, t, span.value.position - |b|, span.value.total)],
                Some(span.value.position + span.value.total)))
  }

  /** The bytes of the run are in the payload of the mdat that follows the moof. */
  predicate SpanFits(b: seq<Byte>, mdat: seq<Byte>, span: Span)
    requires |mdat| >= 8
  {
    |b| + MdatHead(mdat) <= span.position && span.position + span.total <= |b| + |mdat|
  }

  /** `split_live_fragment_by_traf`; None for an exception. */
  function Split(b: seq<Byte>, mdat: seq<Byte>, tracks: seq<TrackDefault>): Option<seq<Part>> {
    if Parse(b).None? || Parse(b).value == [] || Parse(b).value[0].name != "moof" then None
    else
      var moof := Parse(b).value[0];
      if CountTrafs(moof.kids) <= 1 then Some([Part(b, mdat)])
      else if Find(moof.kids, "mfhd").None? || |mdat| < 8 || |mdat| < MdatHead(mdat) then None
      else
        var parts := PartsTo(b, mdat, moof, Find(moof.kids, "mfhd").value, tracks, |moof.kids|);
        if parts.None? then None else Some(parts.value.0)
  }

  // ---- what a part is

  /** The trun of a traf with its data offset replaced. */
  function PatchedTrun(t: Node, offset: nat): Node
    requires Patchable(t)
  {
    var run := Find(t.kids, "trun").value;
    if run.head + 12 <= |run.all| then run.(all := Put(run.all, run.head + 8, BE(4, offset))) else run
  }

  function PatchedTraf(t: Node, offset: nat): Node
    requires Patchable(t)
  {
    t.(all := Patched(t, offset), kids := t.kids[IndexOf(t.kids, "trun") := PatchedTrun(t, offset)])
  }

  /** The trun of the traf has room for a data offset. */
  predicate Roomy(t: Node) {
    Find(t.kids, "trun").Some? && Find(t.kids, "trun").value.head + 12 <= |Find(t.kids, "trun").value.all|
  }

  lemma PutInside(a: seq<Byte>, x: seq<Byte>, c: seq<Byte>, at: nat, bytes: seq<Byte>)
    requires at + |bytes| <= |x|
    ensures Put(a + x + c, |a| + at, bytes) == a + Put(x, at, bytes) + c
  {
    var all := a + x + c;
    assert all[..|a| + at] == a + x[..at];
    assert all[|a| + at + |bytes|..] == x[at + |bytes|..] + c;
  }

  /** Patching the traf is patching its trun. */
  lemma PatchedIs(t: Node, offset: nat, tail: seq<Byte>)
    requires Roomy(t) && t.head <= |t.all| && t.all == t.all[..t.head] + Flat(t.kids) + tail
    ensures Patchable(t)
    ensures Patched(t, offset) == t.all[..t.head] + Flat(PatchedTraf(t, offset).kids) + tail
  {
    hide Flat, Put, BE;
    var k := IndexOf(t.kids, "trun");
    var run := t.kids[k];
    FlatCut(t.kids, k);
    var head, before, after := t.all[..t.head], Flat(t.kids[..k]), Flat(t.kids[k + 1..]);
    Regroup(head, before, run.all, after, tail);
    assert t.all == head + before + run.all + (after + tail);
    PutInside(head + before, run.all, after + tail, run.head + 8, BE(4, offset));
    var kids := PatchedTraf(t, offset).kids;
    FlatCut(kids, k);
    assert kids[..k] == t.kids[..k] && kids[k + 1..] == t.kids[k + 1..];
    Regroup(head, before, kids[k].all, after, tail);
  }

  lemma Regroup(a: seq<Byte>, b: seq<Byte>, c: seq<Byte>, d: seq<Byte>, e: seq<Byte>)
    ensures a + (b + c + d) + e == a + b + c + (d + e)
  {
  }

  /** The data offset lies inside the traf exactly when the trun's payload and the bytes behind the trun hold twelve. */
  lemma PatchableExactly(t: Node, tail: seq<Byte>)
    requires t.head <= |t.all| && t.all == t.all[..t.head] + Flat(t.kids) + tail
    requires Find(t.kids, "trun").Some? && Find(t.kids, "trun").value.head <= |Find(t.kids, "trun").value.all|
    ensures var k := IndexOf(t.kids, "trun");
      Patchable(t) <==> |Payload(t.kids[k])| + |Flat(t.kids[k + 1..])| + |tail| >= 12
  {
    hide Flat;
    FlatCut(t.kids, IndexOf(t.kids, "trun"));
  }

  lemma TrunRebuilt(c: Node, offset: nat)
    requires Built(c) && (Stated(c) || ToTheEnd(c)) && c.name == "trun" && c.head + 12 <= |c.all|
    ensures Rebuilt(c, c.(all := Put(c.all, c.head + 8, BE(4, offset))))
  {
    hide FromBE, BE, Put, Rebuilt;
    CmafRebaseTree.PutKeepsHead(c.all, c.head, c.head + 8, BE(4, offset));
    CmafRebaseTree.LeafRebuilt(c, Put(c.all, c.head + 8, BE(4, offset)));
    assert c.(all := Put(c.all, c.head + 8, BE(4, offset))) ==
           Node(c.name, c.head, Put(c.all, c.head + 8, BE(4, offset)), c.kids);
  }

  lemma SameRebuilt(c: Node)
    requires Built(c) && (Stated(c) || ToTheEnd(c))
    ensures Rebuilt(c, c)
  {
  }

  /** A patched traf is a traf of the same boxes. */
  lemma PatchedRebuilt(t: Node, offset: nat)
    requires Built(t) && (Stated(t) || ToTheEnd(t)) && t.name == "traf" && Roomy(t)
    ensures Patchable(t) && Rebuilt(t, PatchedTraf(t, offset))
  {
    hide Parse, Flat, FromBE, BE, Rebuilt, Built, Stated, ToTheEnd, Put, Patched;
    var tail := BoxTail(t);
    PatchedIs(t, offset, tail);
    var kids := PatchedTraf(t, offset).kids;
    forall i | 0 <= i < |kids|
      ensures Rebuilt(t.kids[i], kids[i])
    {
      assert Placed(t.kids[i], i == |t.kids| - 1 && tail == []);
      if i == IndexOf(t.kids, "trun") {
        TrunRebuilt(t.kids[i], offset);
      } else {
        SameRebuilt(t.kids[i]);
      }
    }
    SameSize(t, kids, tail, Patched(t, offset));
    CmafRebaseTree.ContainerRebuilt(t, kids, t.all[..t.head], tail);
    assert PatchedTraf(t, offset) == Node(t.name, t.head, t.all[..t.head] + Flat(kids) + tail, kids);
  }

  lemma SameSize(t: Node, kids: seq<Node>, tail: seq<Byte>, all: seq<Byte>)
    requires t.head <= |t.all| && all == t.all[..t.head] + Flat(kids) + tail && |all| == |t.all|
    ensures |t.all[..t.head] + Flat(kids) + tail| == |t.all|
  {
  }

  lemma BoxTail(t: Node) returns (tail: seq<Byte>)
    requires Built(t) && t.name == "traf"
    ensures t.head <= |t.all| && t.all == t.all[..t.head] + Flat(t.kids) + tail && Ranged(t.kids, tail)
    ensures IsContainer("traf")
  {
    hide Parse, Flat, FromBE, Ranged;
    tail := ParseTiles(t.all[t.head..]);
    assert t.all == t.all[..t.head] + (Flat(t.kids) + tail);
    assert t.all[..t.head] + (Flat(t.kids) + tail) == t.all[..t.head] + Flat(t.kids) + tail;
  }

  /**
   * A part on its own: its moof parses as the mfhd and the traf, alike but for the
   * data offset of its trun, and that offset names the bytes the span named.
   */
  ghost predicate CarriesRun(b: seq<Byte>, mdat: seq<Byte>, mfhd: Node, t: Node, span: Span, p: Part) {
    Patchable(t) && |b| <= span.position && span.position + span.total <= |b| + |mdat| &&
    var offset := NewOffset(mfhd, t);
    var run := PatchedTrun(t, offset);
    Parse(p.moof) == Some([Node("moof", 8, p.moof, [mfhd, PatchedTraf(t, offset)])]) &&
    run.head + 12 <= |run.all| && FromBE(run.all[run.head + 8..][..4]) == offset &&
    offset + span.total <= |p.moof + p.mdat| &&
    (p.moof + p.mdat)[offset..offset + span.total] == (b + mdat)[span.position..span.position + span.total]
  }

  lemma PartStandsAlone(b: seq<Byte>, mdat: seq<Byte>, mfhd: Node, t: Node, start: nat, total: nat)
    requires Built(mfhd) && Stated(mfhd) && Built(t) && (Stated(t) || ToTheEnd(t)) && t.name == "traf" && Roomy(t)
    requires start + total <= |mdat| && NewOffset(mfhd, t) <= MaxU32
    ensures Patchable(t)
    ensures CarriesRun(b, mdat, mfhd, t, Span(|b| + start, total), PartOf(mdat, mfhd, t, start, total))
  {
    hide Parse, Flat, FromBE, BE, Built, Stated, ToTheEnd, Rebuilt, Put, Box;
    var offset := NewOffset(mfhd, t);
    PatchedRebuilt(t, offset);
    var traf := PatchedTraf(t, offset);
    PairParses(mfhd, t, traf);
    MoofBuilt(mfhd, traf);
    OffsetRead(t, offset);
    var p := PartOf(mdat, mfhd, t, start, total);
    DataBehind(p.moof, mdat[start..start + total]);
    assert (b + mdat)[|b| + start..|b| + start + total] == mdat[start..start + total];
  }

  lemma DataBehind(moof: seq<Byte>, data: seq<Byte>)
    ensures (moof + Box("mdat", data))[|moof| + 8..|moof| + 8 + |data|] == data
  {
    assert (moof + Box("mdat", data))[|moof| + 8..] == Box("mdat", data)[8..];
  }

  lemma OffsetRead(t: Node, offset: nat)
    requires Roomy(t) && Patchable(t) && offset <= MaxU32
    ensures PatchedTrun(t, offset).head + 12 <= |PatchedTrun(t, offset).all|
    ensures FromBE(PatchedTrun(t, offset).all[PatchedTrun(t, offset).head + 8..][..4]) == offset
  {
    hide FromBE, BE, Put;
    var run := Find(t.kids, "trun").value;
    CmafRebaseTree.PutSlices(run.all, run.head + 8, BE(4, offset));
    Pow256Values();
    ReadBackBE(4, offset);
    SliceOfDrop(Put(run.all, run.head + 8, BE(4, offset)), run.head + 8, 0, 4);
  }

  /** The mfhd and a rebuilt traf that may run to the end. */
  lemma PairParses(mfhd: Node, t: Node, traf: Node)
    requires Built(mfhd) && Stated(mfhd) && Rebuilt(t, traf)
    ensures Parse(mfhd.all + traf.all) == Some([mfhd, traf])
  {
    hide Built, Stated, ToTheEnd, Parse;
    ParseNothing([]);
    assert traf.all == traf.all + [];
    ParseOne(traf.all, traf, [], []);
    assert [traf] + [] == [traf];
    ParseOne(mfhd.all + traf.all, mfhd, traf.all, [traf]);
    assert [mfhd] + [traf] == [mfhd, traf];
  }

  lemma MoofBuilt(mfhd: Node, traf: Node)
    requires Parse(mfhd.all + traf.all) == Some([mfhd, traf]) && 8 + |mfhd.all| + |traf.all| <= MaxU32
    ensures var moof := Box("moof", mfhd.all + traf.all);
      Parse(moof) == Some([Node("moof", 8, moof, [mfhd, traf])])
  {
    hide Built, Stated, Parse, Box;
    BoxBuilt("moof", mfhd.all + traf.all, [mfhd, traf]);
    ParseLast(Node("moof", 8, Box("moof", mfhd.all + traf.all), [mfhd, traf]));
  }

  // ---- all parts

  /** One part per traf, in their order. */
  lemma {:induction false} PartsAre(b: seq<Byte>, mdat: seq<Byte>, moof: Node, mfhd: Node, tracks: seq<TrackDefault>,
                                    n: nat, j: nat)
    requires j < n <= |moof.kids| && |mdat| >= 8 && MdatHead(mdat) <= |mdat| && moof.kids[j].name == "traf"
    requires PartsTo(b, mdat, moof, mfhd, tracks, n).Some?
    ensures |PartsTo(b, mdat, moof, mfhd, tracks, n).value.0| == CountTrafs(moof.kids[..n])
    ensures CountTrafs(moof.kids[..j]) < CountTrafs(moof.kids[..n])
    ensures PartsTo(b, mdat, moof, mfhd, tracks, j).Some?
    ensures var span := SpanOf(b, moof, j, PartsTo(b, mdat, moof, mfhd, tracks, j).value.1, tracks);
      span.Some? && SpanFits(b, mdat, span.value) && Patchable(moof.kids[j]) &&
      PartsTo(b, mdat, moof, mfhd, tracks, n).value.0[CountTrafs(moof.kids[..j])] ==
      PartOf(mdat, mfhd, moof.kids[j], span.value.position - |b|, span.value.total)
  {
    hide SpanOf, Patched, Patchable, PartOf;
    PartCount(b, mdat, moof, mfhd, tracks, n);
    PartCount(b, mdat, moof, mfhd, tracks, n - 1);
    assert moof.kids[..n][..n - 1] == moof.kids[..n - 1];
    if j < n - 1 {
      PartsAre(b, mdat, moof, mfhd, tracks, n - 1, j);
    }
  }

  lemma {:induction false} PartCount(b: seq<Byte>, mdat: seq<Byte>, moof: Node, mfhd: Node, tracks: seq<TrackDefault>,
                                     n: nat)
    requires n <= |moof.kids| && |mdat| >= 8 && MdatHead(mdat) <= |mdat|
    requires PartsTo(b, mdat, moof, mfhd, tracks, n).Some?
    ensures |PartsTo(b, mdat, moof, mfhd, tracks, n).value.0| == CountTrafs(moof.kids[..n])
  {
    hide SpanOf, Patched, Patchable, PartOf;
    if n > 0 {
      PartCount(b, mdat, moof, mfhd, tracks, n - 1);
      assert moof.kids[..n][..n - 1] == moof.kids[..n - 1];
    }
  }

  lemma ChildPlaced(b: seq<Byte>, j: nat)
    requires Parse(b).Some? && Parse(b).value != [] && Parse(b).value[0].name == "moof"
    requires j < |Parse(b).value[0].kids|
    ensures var c := Parse(b).value[0].kids[j]; Built(c) && (Stated(c) || ToTheEnd(c))
  {
    hide Parse, Flat, FromBE, IsContainer, Built, Stated, ToTheEnd;
    var top := Parse(b).value;
    var tail := ParseTiles(b);
    assert Placed(top[0], 0 == |top| - 1 && tail == []);
    MoofIsContainer();
    var inner := KidsRanged(top[0]);
    assert Placed(top[0].kids[j], j == |top[0].kids| - 1 && inner == []);
  }

  lemma KidsRanged(n: Node) returns (tail: seq<Byte>)
    requires Built(n) && IsContainer(n.name)
    ensures Ranged(n.kids, tail)
  {
    hide Parse, Flat, FromBE, Ranged, IsContainer;
    tail := ParseTiles(n.all[n.head..]);
  }

  /**
   * Splitting a fragment of several tracks: traf `j` becomes the part of its rank. The
   * part's moof holds the mfhd and that traf, changed only in the data offset of its
   * trun; the bytes the new offset names are those the old one named.
   */
  lemma SplitKeepsRuns(b: seq<Byte>, mdat: seq<Byte>, tracks: seq<TrackDefault>, j: nat)
    requires Split(b, mdat, tracks).Some? && CountTrafs(Parse(b).value[0].kids) > 1
    requires var moof := Parse(b).value[0];
      j < |moof.kids| && moof.kids[j].name == "traf" && Roomy(moof.kids[j]) &&
      Stated(Find(moof.kids, "mfhd").value) && NewOffset(Find(moof.kids, "mfhd").value, moof.kids[j]) <= MaxU32
    ensures var moof, parts := Parse(b).value[0], Split(b, mdat, tracks).value;
      var mfhd, rank := Find(moof.kids, "mfhd").value, CountTrafs(moof.kids[..j]);
      var before := PartsTo(b, mdat, moof, mfhd, tracks, j);
      |parts| == CountTrafs(moof.kids) && rank < |parts| && before.Some? &&
      SpanOf(b, moof, j, before.value.1, tracks).Some? &&
      SpanFits(b, mdat, SpanOf(b, moof, j, before.value.1, tracks).value) &&
      CarriesRun(b, mdat, mfhd, moof.kids[j], SpanOf(b, moof, j, before.value.1, tracks).value, parts[rank])
  {
    hide Parse, SpanOf, Built, Stated, ToTheEnd, PartsTo, Patched, Patchable, Roomy, CarriesRun, PartOf;
    var moof := Parse(b).value[0];
    var k := IndexOf(moof.kids, "mfhd");
    var mfhd, t := moof.kids[k], moof.kids[j];
    ChildPlaced(b, k);
    ChildPlaced(b, j);
    PartsAre(b, mdat, moof, mfhd, tracks, |moof.kids|, j);
    assert moof.kids[..|moof.kids|] == moof.kids;
    var before := PartsTo(b, mdat, moof, mfhd, tracks, j).value.1;
    var span := SpanOf(b, moof, j, before, tracks).value;
    PartStandsAlone(b, mdat, mfhd, t, span.position - |b|, span.total);
  }

  // ---- the loops

  lemma {:induction false} RefusedSizes(b: seq<Byte>, pos: nat, flags: nat, default_: nat, k: nat, n: nat)
    requires k <= n && SizesTo(b, pos, flags, default_, k).None?
    ensures SizesTo(b, pos, flags, default_, n).None?
  {
    if k < n {
      RefusedSizes(b, pos, flags, default_, k, n - 1);
    }
  }

  lemma NoSizes(b: seq<Byte>, pos: nat, flags: nat, default_: nat)
    ensures SizesTo(b, pos, flags, default_, 0) == Some((0, pos))
  {
  }

  lemma NextSize(b: seq<Byte>, pos: nat, flags: nat, default_: nat, i: nat, total: nat, cursor: nat)
    requires SizesTo(b, pos, flags, default_, i) == Some((total, cursor))
    ensures var at := cursor + if HasBit(flags, 8) then 4 else 0;
      var size := F.Take(b, at, HasBit(flags, 9), default_);
      SizesTo(b, pos, flags, default_, i + 1) ==
      if size.None? || size.value.0 == 0 then None
      else
        Some((total + size.value.0,
              size.value.1 + (if HasBit(flags, 10) then 4 else 0) + (if HasBit(flags, 11) then 4 else 0)))
  {
    hide HasBit, F.Take;
  }

  /** The sum of the sample sizes of a run. */
  method TotalSize(b: seq<Byte>, pos: nat, flags: nat, default_: nat, count: nat) returns (r: Option<nat>)
    ensures r.Some? <==> SizesTo(b, pos, flags, default_, count).Some?
    ensures r.Some? ==> r.value == SizesTo(b, pos, flags, default_, count).value.0
  {
    hide HasBit, FromBE, SizesTo;
    var total: nat, cursor: nat := 0, pos;
    NoSizes(b, pos, flags, default_);
    for i := 0 to count
      invariant SizesTo(b, pos, flags, default_, i) == Some((total, cursor))
    {
      NextSize(b, pos, flags, default_, i, total, cursor);
      var size := default_;
      if HasBit(flags, 8) {
        cursor := cursor + 4;
      }
      if HasBit(flags, 9) {
        if cursor + 4 > |b| {
          RefusedSizes(b, pos, flags, default_, i + 1, count);
          return None;
        }
        size := FromBE(b[cursor..cursor + 4]);
        cursor := cursor + 4;
      }
      if HasBit(flags, 10) {
        cursor := cursor + 4;
      }
      if HasBit(flags, 11) {
        cursor := cursor + 4;
      }
      if size == 0 {
        RefusedSizes(b, pos, flags, default_, i + 1, count);
        return None;
      }
      total := total + size;
    }
    return Some(total);
  }

  method FindDefault(tracks: seq<TrackDefault>, id: nat) returns (size: nat)
    ensures size == DefaultSize(tracks, id)
  {
    size := 0;
    for i := 0 to |tracks|
      invariant size == DefaultSize(tracks[..i], id)
    {
      assert tracks[..i + 1][..i] == tracks[..i];
      if tracks[i].id == id && tracks[i].size.Some? {
        size := tracks[i].size.value;
      }
    }
    assert tracks[..|tracks|] == tracks;
  }

  method ReadSpan(b: seq<Byte>, moof: Node, j: nat, previous: Option<nat>, tracks: seq<TrackDefault>)
    returns (r: Option<Span>)
    requires j < |moof.kids|
    ensures r == SpanOf(b, moof, j, previous, tracks)
  {
    hide HasBit, FromBE, CountNamed, Find, SizesTo, DefaultSize, KidAt, Payload, Signed32;
    var t := moof.kids[j];
    var tfhd, trun := Find(t.kids, "tfhd"), Find(t.kids, "trun");
    if tfhd.None? || |Payload(tfhd.value)| < 8 || CountNamed(t.kids, "trun") != 1 || Find(t.kids, "saio").Some? ||
       trun.None? || |Payload(trun.value)| < 8 {
      return None;
    }
    var head, run := PayloadAt(moof, j, "tfhd"), PayloadAt(moof, j, "trun");
    if head + 8 > |b| || run + 12 > |b| {
      return None;
    }
    var headFlags := FromBE(b[head + 1..head + 4]);
    if HasBit(headFlags, 0) {
      return None;
    }
    var cursor := head + 8;
    if HasBit(headFlags, 1) {
      cursor := cursor + 4;
    }
    if HasBit(headFlags, 3) {
      cursor := cursor + 4;
    }
    var size := 0;
    if HasBit(headFlags, 4) {
      if cursor + 4 > |b| {
        return None;
      }
      size := FromBE(b[cursor..cursor + 4]);
    } else {
      size := FindDefault(tracks, FromBE(b[head + 4..head + 8]));
    }
    var flags := FromBE(b[run + 1..run + 4]);
    if !HasBit(flags, 0) {
      return None;
    }
    var entries := run + 12;
    if HasBit(flags, 2) {
      entries := entries + 4;
    }
    var total := TotalSize(b, entries, flags, size, FromBE(b[run + 4..run + 8]));
    if total.None? {
      return None;
    }
    var base := if HasBit(headFlags, 17) || previous.None? then 0 else previous.value;
    return Some(Span(base + Signed32(FromBE(b[run + 8..run + 12])), total.value));
  }

  lemma {:induction false} RefusedParts(b: seq<Byte>, mdat: seq<Byte>, moof: Node, mfhd: Node,
                                        tracks: seq<TrackDefault>, j: nat, n: nat)
    requires j <= n <= |moof.kids| && |mdat| >= 8 && MdatHead(mdat) <= |mdat|
    requires PartsTo(b, mdat, moof, mfhd, tracks, j).None?
    ensures PartsTo(b, mdat, moof, mfhd, tracks, n).None?
  {
    hide SpanOf, Patched, Patchable, PartOf, SpanFits;
    if j < n {
      RefusedParts(b, mdat, moof, mfhd, tracks, j, n - 1);
    }
  }

  method SplitLiveFragmentByTraf(b: seq<Byte>, mdat: seq<Byte>, tracks: seq<TrackDefault>)
    returns (r: Option<seq<Part>>)
    ensures r == Split(b, mdat, tracks)
  {
    hide Parse, SpanOf, Find, CountTrafs, FromBE, Patched, Patchable, PartOf;
    var boxes := ParseBoxRange(b);
    if boxes.None? || boxes.value == [] || boxes.value[0].name != "moof" {
      return None;
    }
    var moof := boxes.value[0];
    if CountTrafs(moof.kids) <= 1 {
      return Some([Part(b, mdat)]);
    }
    var mfhd := Find(moof.kids, "mfhd");
    if mfhd.None? || |mdat| < 8 || |mdat| < MdatHead(mdat) {
      return None;
    }
    var parts: seq<Part> := [];
    var previous: Option<nat> := None;
    for j := 0 to |moof.kids|
      invariant PartsTo(b, mdat, moof, mfhd.value, tracks, j) == Some((parts, previous))
    {
      var t := moof.kids[j];
      if t.name != "traf" {
        continue;
      }
      var span := ReadSpan(b, moof, j, previous, tracks);
      if span.None? || !Patchable(t) || !SpanFits(b, mdat, span.value) {
        RefusedParts(b, mdat, moof, mfhd.value, tracks, j + 1, |moof.kids|);
        return None;
      }
      parts := parts + [PartOf(mdat, mfhd.value, t, span.value.position - |b|, span.value.total)];
      previous := Some(span.value.position + span.value.total);
    }
    return Some(parts);
  }
}
