/**
 * Which moofs can be normalized: a condition on the boxes and the bytes of the run,
 * stated without the reader or the rebuild.
 */
module TrunNormalizeSuccess {
  import opened Bytes
  import opened Mp4Boxes
  import opened BoxWriter
  import opened CmafRebase
  import opened RunFormat
  import opened TrunNormalize
  import opened TrunNormalizeRead
  import opened TrunNormalizeTree
  import opened TrunNormalizeMoves
  import opened TrunNormalizeFields
  import CmafRebaseSuccess
  import F = FragmentReader

  // ---- the place

  /** The first run of the first traf of a moof that comes first; no other traf has a saio. */
  ghost predicate IsPlace(b: seq<Byte>, w: Place) {
    w.Inside() && Parse(b).Some? && Parse(b).value != [] && w.moof == Parse(b).value[0] && w.moof.name == "moof" &&
    IsFirst(w.moof.kids, "traf", w.j) && IsFirst(w.Traf().kids, "trun", w.k) && |Payload(w.Trun())| >= 8 &&
    forall t, c | t in w.moof.kids[..w.j] + w.moof.kids[w.j + 1..] && t.name == "traf" && c in t.kids :: c.name != "saio"
  }

  lemma PlaceExactly(b: seq<Byte>, w: Place)
    ensures Locate(b) == Some(w) <==> IsPlace(b, w)
  {
    hide Parse, Payload;
    if Parse(b).Some? && Parse(b).value != [] {
      var kids := Parse(b).value[0].kids;
      FirstIs(kids, "traf", w.j);
      if w.j < |kids| {
        FirstIs(kids[w.j].kids, "trun", w.k);
        OthersExactly(kids, w.j);
      }
      var j := IndexOf(kids, "traf");
      if j < |kids| {
        OthersExactly(kids, j);
      }
    }
  }

  lemma OthersExactly(kids: seq<Node>, j: nat)
    requires j < |kids|
    ensures (exists i | 0 <= i < |kids| :: i != j && kids[i].name == "traf" && Find(kids[i].kids, "saio").Some?) <==>
      !(forall t, c | t in kids[..j] + kids[j + 1..] && t.name == "traf" && c in t.kids :: c.name != "saio")
  {
    var others := kids[..j] + kids[j + 1..];
    if i :| 0 <= i < |kids| && i != j && kids[i].name == "traf" && Find(kids[i].kids, "saio").Some? {
      assert others[if i < j then i else i - 1] == kids[i];
      assert Find(kids[i].kids, "saio").value in kids[i].kids;
    }
    if t, c :| t in others && t.name == "traf" && c in t.kids && c.name == "saio" {
      var o :| 0 <= o < |others| && others[o] == t;
      assert kids[if o < j then o else o + 1] == t;
    }
  }

  // ---- the size

  /** The new moof: short headers, the other boxes as they are, and the run stated in full. */
  function NewLength(w: Place, run: Run): nat
    requires w.Inside()
  {
    16 + |Flat(w.moof.kids[..w.j])| + |Flat(w.moof.kids[w.j + 1..])| + |Flat(w.Traf().kids[..w.k])| +
    |Flat(w.Traf().kids[w.k + 1..])| + 20 + (if HasBit(run.flags, 11) then 16 else 12) * |run.samples|
  }

  lemma {:induction false} EntriesLength(samples: seq<Entry>, shifted: bool)
    ensures |EntriesBytes(samples, shifted)| == (if shifted then 16 else 12) * |samples|
  {
    if samples != [] {
      EntriesLength(samples[..|samples| - 1], shifted);
    }
  }

  lemma NormalLength(run: Run, dataOffset: nat)
    requires run.flags < Pow256(3)
    ensures |NormalTrun(run, dataOffset)| == 20 + (if HasBit(run.flags, 11) then 16 else 12) * |run.samples|
  {
    hide HasBit, NormalFlags, EntriesBytes;
    NormalBits(run.flags);
    EntriesLength(run.samples, HasBit(NormalFlags(run.flags), 11));
    LengthBE(4, |run.samples|);
    LengthBE(4, dataOffset);
  }

  lemma SizeExactly(w: Place, run: Run)
    requires w.Inside() && run.flags < Pow256(3)
    ensures NewSize(w, run) == Some(NewLength(w, run))
  {
    hide Flat, NormalTrun, NewMoof;
    var ch := Change(NormalTrun(run, 0), false, 0, 0);
    Settled(w, ch, NormalTrun(run, 0));
    var kids := w.Traf().kids[w.k := Node("trun", 8, NormalTrun(run, 0), [])];
    MoofLength(w, kids);
    FlatCut(kids, w.k);
    assert kids[..w.k] == w.Traf().kids[..w.k] && kids[w.k + 1..] == w.Traf().kids[w.k + 1..];
    NormalLength(run, 0);
  }

  // ---- auxiliary information

  /** A walk from box to box by their 32-bit sizes, up to one of this type. */
  ghost predicate Path(b: seq<Byte>, stops: seq<nat>, limit: nat, name: string)
    requires limit <= |b|
  {
    stops != [] && (forall i | 0 <= i < |stops| :: SoundBox(b, stops[i], limit)) &&
    (forall i | 0 < i < |stops| :: stops[i] == BoxEnd(b, stops[i - 1])) &&
    Name(b[stops[|stops| - 1] + 4..stops[|stops| - 1] + 8]) == name
  }

  ghost predicate SoundBox(b: seq<Byte>, at: nat, limit: nat)
    requires limit <= |b|
  {
    at + 8 <= limit && FromBE(b[at..at + 4]) >= 8 && at + FromBE(b[at..at + 4]) <= limit
  }

  function BoxEnd(b: seq<Byte>, at: nat): nat {
    if at + 4 <= |b| then at + FromBE(b[at..at + 4]) else at
  }

  ghost predicate Reaches(b: seq<Byte>, from: nat, limit: nat, name: string)
    requires limit <= |b|
  {
    exists stops: seq<nat> :: Path(b, stops, limit, name) && stops[0] == from
  }

  lemma {:induction false} WalksExactly(b: seq<Byte>, from: nat, limit: nat, name: string)
    requires limit <= |b|
    ensures Walks(b, from, limit, name) <==> Reaches(b, from, limit, name)
    decreases if from <= limit then limit - from else 0
  {
    hide FromBE, Name;
    if SoundBox(b, from, limit) {
      var next := BoxEnd(b, from);
      WalksExactly(b, next, limit, name);
      if Name(b[from + 4..from + 8]) == name {
        assert Path(b, [from], limit, name);
      } else if Walks(b, next, limit, name) {
        var stops: seq<nat> :| Path(b, stops, limit, name) && stops[0] == next;
        Prepended(b, from, stops, limit, name);
      }
    }
    if Reaches(b, from, limit, name) && !Walks(b, from, limit, name) {
      var stops: seq<nat> :| Path(b, stops, limit, name) && stops[0] == from;
      assert SoundBox(b, stops[0], limit);
      if |stops| > 1 {
        Shortened(b, stops, limit, name);
      }
    }
  }

  lemma Prepended(b: seq<Byte>, from: nat, stops: seq<nat>, limit: nat, name: string)
    requires limit <= |b| && Path(b, stops, limit, name) && SoundBox(b, from, limit) && stops[0] == BoxEnd(b, from)
    ensures Path(b, [from] + stops, limit, name)
  {
    hide FromBE, Name, SoundBox;
    var all := [from] + stops;
    forall i | 0 < i < |all|
      ensures all[i] == BoxEnd(b, all[i - 1])
    {
      assert all[i] == stops[i - 1];
    }
  }

  lemma Shortened(b: seq<Byte>, stops: seq<nat>, limit: nat, name: string)
    requires limit <= |b| && Path(b, stops, limit, name) && |stops| > 1
    ensures Path(b, stops[1..], limit, name) && stops[1..][0] == BoxEnd(b, stops[0])
  {
    hide FromBE, Name, SoundBox;
  }

  /** The traf holds a senc or saiz box. */
  ghost predicate HasAuxiliary(b: seq<Byte>, w: Place)
    requires w.Inside() && w.TrafAt() + |w.Traf().all| <= |b|
  {
    var limit := w.TrafAt() + |w.Traf().all|;
    Reaches(b, w.TrafAt() + 8, limit, "senc") || Reaches(b, w.TrafAt() + 8, limit, "saiz")
  }

  /** An entry names a place in the fragment, and can move by what the moof grows when that place is behind the run. */
  ghost predicate EntryFollows(entries: seq<Byte>, width: nat, e: nat, limit: nat, runEnd: nat, delta: int) {
    width * e + width <= |entries| &&
    var entry := FromBE(entries[width * e..width * e + width]);
    entry < limit && (entry >= runEnd ==> entry + delta >= 0)
  }

  /** A saio of a known version that holds the entries it counts, each of which can follow. */
  ghost predicate SaioFollows(c: Node, limit: nat, runEnd: nat, delta: int) {
    var b := Payload(c);
    |b| >= 8 && b[0] <= 1 &&
    var start := if HasBit(FromBE(b[1..4]), 0) then 16 else 8;
    start <= |b| &&
    var count, width := FromBE(b[start - 4..start]), if b[0] == 0 then 4 else 8;
    width * count <= |b| - start && EntriesFollow(b[start..], width, count, limit, runEnd, delta)
  }

  ghost predicate EntriesFollow(entries: seq<Byte>, width: nat, count: nat, limit: nat, runEnd: nat, delta: int) {
    forall e: nat | e < count :: EntryFollows(entries, width, e, limit, runEnd, delta)
  }

  lemma {:induction false} EntriesExactly(entries: seq<Byte>, width: nat, i: nat, limit: nat, runEnd: nat, delta: int)
    requires width > 0 && width * i <= |entries|
    ensures MoveEntries(entries, width, i, limit, runEnd, delta).Some? <==>
      forall e: nat | e < i :: EntryFollows(entries, width, e, limit, runEnd, delta)
  {
    hide FromBE, BE;
    if i > 0 {
      assert width * i == width * (i - 1) + width;
      EntriesExactly(entries, width, i - 1, limit, runEnd, delta);
      assert EntryFollows(entries, width, i - 1, limit, runEnd, delta) <==>
        MoveEntry(FromBE(entries[width * (i - 1)..width * i]), limit, runEnd, delta).Some?;
    }
  }

  lemma FollowsIs(c: Node, limit: nat, runEnd: nat, delta: int)
    ensures SaioFollows(c, limit, runEnd, delta) <==>
      SaioLayout(Payload(c)).Some? && Payload(c)[0] <= 1 &&
      var (start, width, count) := SaioLayout(Payload(c)).value;
      start <= |Payload(c)| && EntriesFollow(Payload(c)[start..], width, count, limit, runEnd, delta)
  {
    hide FromBE, HasBit, EntriesFollow, SaioLayout;
    CmafRebaseSuccess.LayoutExactly(Payload(c));
  }

  lemma SaioExactly(c: Node, found: bool, limit: nat, runEnd: nat, delta: int)
    ensures CorrectSaio(c, found, limit, runEnd, delta).Some? <==> found && SaioFollows(c, limit, runEnd, delta)
  {
    hide FromBE, BE, Put, HasBit, MoveEntries, EntryFollows, SaioFollows, SaioLayout;
    FollowsIs(c, limit, runEnd, delta);
    NoLayout();
    if SaioLayout(Payload(c)).Some? {
      var (start, width, count) := SaioLayout(Payload(c)).value;
      SaioFits(Payload(c));
      EntriesExactly(Payload(c)[start..], width, count, limit, runEnd, delta);
    }
  }

  lemma NoLayout()
    ensures SaioLayout([]).None?
  {
  }

  // ---- the rebuild

  lemma {:induction false} KidsExactly(w: Place, n: nat, ch: Change)
    requires w.Inside() && n <= |w.Traf().kids|
    ensures NewKids(w, n, ch).Some? <==> forall i | 0 <= i < n :: NewKid(w, i, ch).Some?
  {
    hide NewKid;
    if n > 0 {
      KidsExactly(w, n - 1, ch);
    }
  }

  /** Unless the size stays, every saio of the traf can follow and describes auxiliary information that is there. */
  ghost predicate AuxiliaryFollows(b: seq<Byte>, w: Place, mdatSize: nat, delta: int)
    requires w.Inside() && w.TrafAt() + |w.Traf().all| <= |b|
  {
    delta == 0 ||
    forall c | c in w.Traf().kids && c.name == "saio" ::
      HasAuxiliary(b, w) && SaioFollows(c, |w.moof.all| + mdatSize, w.TrunEnd(), delta)
  }

  lemma RebuildExactly(b: seq<Byte>, w: Place, mdatSize: nat, ch: Change)
    requires w.Inside() && w.Trun().name == "trun" && w.TrafAt() + |w.Traf().all| <= |b|
    requires ch.found == Locatable(b, w) && ch.limit == |w.moof.all| + mdatSize
    ensures Rebuild(w, ch).Some? <==> AuxiliaryFollows(b, w, mdatSize, ch.delta)
  {
    hide Walks, Reaches, CorrectSaio, SaioFollows, KidAt, NewMoof, NewKid, HasAuxiliary, Locatable;
    var kids := w.Traf().kids;
    KidsExactly(w, |kids|, ch);
    AuxiliaryExactly(b, w);
    forall i | 0 <= i < |kids|
      ensures NewKid(w, i, ch).Some? <==>
        (kids[i].name != "saio" || ch.delta == 0 ||
         (HasAuxiliary(b, w) && SaioFollows(kids[i], ch.limit, w.TrunEnd(), ch.delta)))
    {
      KidExactly(w, i, ch);
      SaioExactly(kids[i], ch.found, ch.limit, w.TrunEnd(), ch.delta);
    }
  }

  lemma KidExactly(w: Place, i: nat, ch: Change)
    requires w.Inside() && i < |w.Traf().kids| && w.Trun().name == "trun"
    ensures NewKid(w, i, ch).Some? <==>
      (w.Traf().kids[i].name != "saio" || ch.delta == 0 ||
       CorrectSaio(w.Traf().kids[i], ch.found, ch.limit, w.TrunEnd(), ch.delta).Some?)
  {
    hide CorrectSaio, KidAt;
  }

  lemma AuxiliaryExactly(b: seq<Byte>, w: Place)
    requires w.Inside() && w.TrafAt() + |w.Traf().all| <= |b|
    ensures Locatable(b, w) <==> HasAuxiliary(b, w)
  {
    hide Walks, Reaches, KidAt;
    WalksExactly(b, w.TrafAt() + 8, w.TrafAt() + |w.Traf().all|, "senc");
    WalksExactly(b, w.TrafAt() + 8, w.TrafAt() + |w.Traf().all|, "saiz");
  }

  // ---- the whole

  lemma TrafWithin(b: seq<Byte>, w: Place)
    requires IsPlace(b, w)
    ensures w.TrafAt() + |w.Traf().all| <= |w.moof.all| <= |b|
  {
    hide Parse, Flat, FromBE;
    var top := Parse(b).value;
    var tail := ParseTiles(b);
    FlatFirst(top);
    assert Placed(top[0], 0 == |top| - 1 && tail == []);
    MoofIsContainer();
    var inner := ParseTiles(w.moof.all[w.moof.head..]);
    FlatCut(w.moof.kids, w.j);
  }

  /** The run at this place states these samples. */
  ghost predicate Reads(b: seq<Byte>, w: Place, d: F.Defaults, run: Run)
    requires w.Inside()
  {
    exists offset: nat, first: nat :: States(b, RunAtPlace(w), d, run, offset, first)
  }

  function RunAtPlace(w: Place): nat
    requires w.Inside()
  {
    w.TrunAt() + w.Trun().head
  }

  ghost predicate CanNormalize(b: seq<Byte>, mdatSize: nat, d: F.Defaults, w: Place, run: Run) {
    IsPlace(b, w) && Reads(b, w, d, run) && w.TrafAt() + |w.Traf().all| <= |b| &&
    AuxiliaryFollows(b, w, mdatSize, NewLength(w, run) - |w.moof.all|)
  }

  /**
   * A moof is normalized exactly when its first traf has a run that reads, no other traf
   * has a saio, and the saio boxes of this one can follow what moves.
   */
  lemma NormalizesExactly(b: seq<Byte>, mdatSize: nat, d: F.Defaults)
    ensures Normalize(b, mdatSize, d).Some? <==> exists w, run :: CanNormalize(b, mdatSize, d, w, run)
  {
    hide IsPlace, Locate, RunAt, Reads, AuxiliaryFollows, NewLength, NewSize, KidAt, Rebuild, Locatable;
    if w, run :| CanNormalize(b, mdatSize, d, w, run) {
      PlaceExactly(b, w);
      ReadsExactly(b, w, d, run);
      PlannedExactly(b, mdatSize, d, w, run);
    }
    if Normalize(b, mdatSize, d).Some? {
      var w := Locate(b).value;
      var run := RunAt(b, RunAtPlace(w), d).value;
      PlaceExactly(b, w);
      TrafWithin(b, w);
      ReadsExactly(b, w, d, run);
      PlannedExactly(b, mdatSize, d, w, run);
      assert CanNormalize(b, mdatSize, d, w, run);
    }
  }

  lemma ReadsExactly(b: seq<Byte>, w: Place, d: F.Defaults, run: Run)
    requires w.Inside()
    ensures Reads(b, w, d, run) <==> RunAt(b, RunAtPlace(w), d) == Some(run)
    ensures Reads(b, w, d, run) ==> run.flags < Pow256(3)
  {
    hide RunAt, RunAtPlace, RunText, EntriesSettled;
    RunExactly(b, RunAtPlace(w), d, run);
  }

  lemma PlannedExactly(b: seq<Byte>, mdatSize: nat, d: F.Defaults, w: Place, run: Run)
    requires IsPlace(b, w) && Locate(b) == Some(w) && RunAt(b, RunAtPlace(w), d) == Some(run) && run.flags < Pow256(3)
    requires w.TrafAt() + |w.Traf().all| <= |b|
    ensures Normalize(b, mdatSize, d).Some? <==> AuxiliaryFollows(b, w, mdatSize, NewLength(w, run) - |w.moof.all|)
  {
    hide Parse, Locate, RunAt, AuxiliaryFollows, NewLength, NewSize, KidAt, Rebuild, Locatable, NormalTrun;
    SizeExactly(w, run);
    var ch := ChangeOf(b, mdatSize, Plan(w, run, NewLength(w, run)));
    RebuildExactly(b, w, mdatSize, ch);
  }
}
