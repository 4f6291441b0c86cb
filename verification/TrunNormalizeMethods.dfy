/** The loops that normalize a live moof, proved to compute what the specification says. */
module TrunNormalizeMethods {
  import opened Bytes
  import opened Mp4Boxes
  import opened BoxWriter
  import opened CmafRebase
  import opened TrunNormalize
  import opened RunFormat
  import F = FragmentReader

  // ---- auxiliary information offsets

  method FindChildBoxSpan(b: seq<Byte>, from: nat, limit: nat, name: string) returns (found: bool)
    requires limit <= |b|
    ensures found == Walks(b, from, limit, name)
  {
    var cursor := from;
    while cursor + 8 <= limit
      invariant Walks(b, cursor, limit, name) == Walks(b, from, limit, name)
      decreases if cursor <= limit then limit - cursor else 0
    {
      var size := FromBE(b[cursor..cursor + 4]);
      if size < 8 {
        return false;
      }
      var end := cursor + size;
      if end > limit {
        return false;
      }
      if Name(b[cursor + 4..cursor + 8]) == name {
        return true;
      }
      cursor := end;
    }
    return false;
  }

  lemma {:induction false} RefusedEntries(entries: seq<Byte>, width: nat, i: nat, n: nat, limit: nat, runEnd: nat, delta: int)
    requires width > 0 && i <= n && 0 <= width * i && width * n <= |entries| && width * i <= |entries|
    requires MoveEntries(entries, width, i, limit, runEnd, delta).None?
    ensures MoveEntries(entries, width, n, limit, runEnd, delta).None?
    decreases n
  {
    if i < n {
      EntryWithin(width, n - 1, n);
      EntryWithin(width, i, n);
      RefusedEntries(entries, width, i, n - 1, limit, runEnd, delta);
    }
  }

  lemma EntryWithin(width: nat, i: nat, n: nat)
    requires i < n
    ensures 0 <= width * i && width * (i + 1) == width * i + width <= width * n
  {
  }

  method CorrectSaioOffsets(c: Node, found: bool, limit: nat, runEnd: nat, delta: int) returns (r: Option<seq<Byte>>)
    requires c.head <= |c.all|
    ensures r == CorrectSaio(c, found, limit, runEnd, delta)
  {
    hide FromBE, BE, MoveEntries, Put;
    var body := c.all[c.head..];
    if SaioLayout(body).None? || body[0] > 1 || !found {
      return None;
    }
    var (start, width, count) := SaioLayout(body).value;
    SaioFits(body);
    DropOfDrop(c.all, c.head, start);
    hide SaioLayout;
    var at := c.head + start;
    ghost var entries := c.all[at..];
    var corrected := c.all;
    NothingMoved(c.all, at, entries, width, limit, runEnd, delta);
    for index := 0 to count
      invariant width * index <= |entries| && MoveEntries(entries, width, index, limit, runEnd, delta).Some?
      invariant corrected == Put(c.all, at, MoveEntries(entries, width, index, limit, runEnd, delta).value)
    {
      EntryWithin(width, index, count);
      SliceOfDrop(c.all, at, width * index, width * (index + 1));
      var cursor := at + width * index;
      var offset := FromBE(c.all[cursor..cursor + width]);
      ghost var done := MoveEntries(entries, width, index, limit, runEnd, delta).value;
      MoveNext(entries, width, index, limit, runEnd, delta);
      if offset >= limit || (offset >= runEnd && delta < 0 && -delta > offset) {
        RefusedEntries(entries, width, index + 1, count, limit, runEnd, delta);
        return None;
      }
      var adjusted := if offset >= runEnd then offset + delta else offset;
      PutNext(c.all, at, done, BE(width, adjusted));
      corrected := Put(corrected, cursor, BE(width, adjusted));
    }
    return Some(corrected);
  }

  lemma MoveNext(entries: seq<Byte>, width: nat, i: nat, limit: nat, runEnd: nat, delta: int)
    requires width > 0 && 0 <= width * i && width * (i + 1) == width * i + width <= |entries|
    requires MoveEntries(entries, width, i, limit, runEnd, delta).Some?
    ensures var offset := FromBE(entries[width * i..width * (i + 1)]);
      var next := MoveEntries(entries, width, i + 1, limit, runEnd, delta);
      (next.Some? <==> MoveEntry(offset, limit, runEnd, delta).Some?) &&
      (next.Some? ==> next.value == MoveEntries(entries, width, i, limit, runEnd, delta).value +
                                    BE(width, MoveEntry(offset, limit, runEnd, delta).value))
  {
    hide FromBE, BE;
  }

  lemma NothingMoved(all: seq<Byte>, at: nat, entries: seq<Byte>, width: nat, limit: nat, runEnd: nat, delta: int)
    requires width > 0 && at <= |all|
    ensures MoveEntries(entries, width, 0, limit, runEnd, delta) == Some([])
    ensures width * 0 == 0 && Put(all, at, []) == all
  {
  }

  // ---- the run

  method ReadRun(b: seq<Byte>, at: nat, d: F.Defaults) returns (r: Option<Run>)
    requires at + 8 <= |b|
    ensures r == RunAt(b, at, d)
  {
    hide F.Take, HasBit, FromBE, EntryAt;
    var flags := FromBE(b[at + 1..at + 4]);
    var count := FromBE(b[at + 4..at + 8]);
    var offset := F.Take(b, at + 8, HasBit(flags, 0), 0);
    if offset.None? {
      return None;
    }
    var first := F.Take(b, offset.value.1, HasBit(flags, 2), d.flags);
    if first.None? {
      return None;
    }
    var cursor := first.value.1;
    var samples: seq<Entry> := [];
    for i := 0 to count
      invariant EntriesTo(b, first.value.1, flags, first.value.0, d, i) == Some((samples, cursor))
    {
      var entry := EntryAt(b, cursor, flags, if i == 0 then first.value.0 else d.flags, d);
      if entry.None? {
        RefusedRun(b, first.value.1, flags, first.value.0, d, i + 1, count);
        return None;
      }
      samples := samples + [entry.value.0];
      cursor := entry.value.1;
    }
    return Some(Run(b[at], flags, samples));
  }

  lemma {:induction false} RefusedRun(b: seq<Byte>, pos: nat, flags: nat, first: nat, d: F.Defaults, i: nat, n: nat)
    requires i <= n && EntriesTo(b, pos, flags, first, d, i).None?
    ensures EntriesTo(b, pos, flags, first, d, n).None?
  {
    hide EntryAt;
    if i < n {
      RefusedRun(b, pos, flags, first, d, i, n - 1);
    }
  }

  method BuildTrun(run: Run, dataOffset: nat) returns (trun: seq<Byte>)
    ensures trun == NormalTrun(run, dataOffset)
  {
    hide HasBit, NormalFlags, BE, EntriesBytes, EntryBytes;
    NoEntries(HasBit(NormalFlags(run.flags), 11));
    var shifted := HasBit(NormalFlags(run.flags), 11);
    var payload := BE(4, |run.samples|) + BE(4, dataOffset);
    ghost var head := payload;
    for i := 0 to |run.samples|
      invariant payload == head + EntriesBytes(run.samples[..i], shifted)
    {
      var s := run.samples[i];
      payload := payload + BE(4, s.duration) + BE(4, s.size) + BE(4, s.flags);
      if shifted {
        payload := payload + BE(4, s.shift);
      }
      EntryAdded(head + EntriesBytes(run.samples[..i], shifted), s, shifted);
      EntriesNext(head, run.samples, i, shifted);
    }
    assert run.samples[..|run.samples|] == run.samples;
    return FullBox("trun", run.version, NormalFlags(run.flags), payload);
  }

  lemma NoEntries(shifted: bool)
    ensures EntriesBytes([], shifted) == []
  {
  }

  lemma EntriesNext(head: seq<Byte>, samples: seq<Entry>, i: nat, shifted: bool)
    requires i < |samples|
    ensures head + EntriesBytes(samples[..i + 1], shifted) ==
      head + EntriesBytes(samples[..i], shifted) + EntryBytes(samples[i], shifted)
  {
    hide EntryBytes;
    assert samples[..i + 1][..i] == samples[..i];
  }

  lemma EntryAdded(before: seq<Byte>, s: Entry, shifted: bool)
    ensures before + EntryBytes(s, shifted) ==
      (if shifted then before + BE(4, s.duration) + BE(4, s.size) + BE(4, s.flags) + BE(4, s.shift)
       else before + BE(4, s.duration) + BE(4, s.size) + BE(4, s.flags))
  {
    hide BE;
  }

  // ---- the moof

  /** The children of the new traf, one after the other. */
  method RebuildTraf(w: Place, ch: Change) returns (r: Option<seq<Byte>>)
    requires w.Inside() && forall c | c in w.Traf().kids :: c.head <= |c.all|
    ensures r.Some? <==> NewKids(w, |w.Traf().kids|, ch).Some?
    ensures r.Some? ==> r.value == Flat(NewKids(w, |w.Traf().kids|, ch).value)
  {
    hide CorrectSaio, Flat;
    var kids := w.Traf().kids;
    var payload: seq<Byte> := [];
    FlatNothing();
    for i := 0 to |kids|
      invariant NewKids(w, i, ch).Some? && payload == Flat(NewKids(w, i, ch).value)
    {
      assert kids[i] in kids;
      var part := kids[i].all;
      if i == w.k {
        part := ch.trun;
      } else if kids[i].name == "saio" && ch.delta != 0 {
        var moved := CorrectSaioOffsets(kids[i], ch.found, ch.limit, w.TrunEnd(), ch.delta);
        if moved.None? {
          RefusedKids(w, i + 1, |kids|, ch);
          return None;
        }
        part := moved.value;
      }
      FlatAdd(NewKids(w, i, ch).value, NewKid(w, i, ch).value);
      payload := payload + part;
    }
    return Some(payload);
  }

  /** The first `j` boxes of the moof, with the new traf in its place. */
  ghost function BoxesTo(w: Place, traf: seq<Byte>, j: nat): seq<Byte>
    requires w.Inside() && j <= |w.moof.kids|
  {
    if j <= w.j then Flat(w.moof.kids[..j])
    else Flat(w.moof.kids[..w.j]) + traf + Flat(w.moof.kids[w.j + 1..j])
  }

  lemma BoxesStep(w: Place, traf: seq<Byte>, j: nat)
    requires w.Inside() && j < |w.moof.kids|
    ensures BoxesTo(w, traf, j + 1) == BoxesTo(w, traf, j) + if j == w.j then traf else w.moof.kids[j].all
  {
    hide Flat;
    var boxes := w.moof.kids;
    FlatNothing();
    if j < w.j {
      assert boxes[..j + 1] == boxes[..j] + [boxes[j]];
      FlatAdd(boxes[..j], boxes[j]);
    } else if j > w.j {
      assert boxes[w.j + 1..j + 1] == boxes[w.j + 1..j] + [boxes[j]];
      FlatAdd(boxes[w.j + 1..j], boxes[j]);
    }
  }

  method RebuildMoof(w: Place, ch: Change) returns (r: Option<seq<Byte>>)
    requires w.Inside() && forall c | c in w.Traf().kids :: c.head <= |c.all|
    ensures r == Rebuild(w, ch)
  {
    hide NewKids, Box, Flat, BoxesTo;
    var trafPayload := RebuildTraf(w, ch);
    if trafPayload.None? {
      return None;
    }
    var traf := Box("traf", trafPayload.value);
    var boxes := w.moof.kids;
    var payload: seq<Byte> := [];
    BoxesEnds(w, traf);
    for j := 0 to |boxes|
      invariant payload == BoxesTo(w, traf, j)
    {
      BoxesStep(w, traf, j);
      payload := payload + if j == w.j then traf else boxes[j].all;
    }
    return Some(Box("moof", payload));
  }

  lemma BoxesEnds(w: Place, traf: seq<Byte>)
    requires w.Inside()
    ensures BoxesTo(w, traf, 0) == []
    ensures BoxesTo(w, traf, |w.moof.kids|) == Flat(w.moof.kids[..w.j]) + traf + Flat(w.moof.kids[w.j + 1..])
  {
    assert w.moof.kids[w.j + 1..|w.moof.kids|] == w.moof.kids[w.j + 1..];
  }

  lemma FlatNothing()
    ensures Flat([]) == []
  {
  }

  lemma FlatAdd(nodes: seq<Node>, n: Node)
    ensures Flat(nodes + [n]) == Flat(nodes) + n.all
  {
    assert (nodes + [n])[..|nodes|] == nodes;
  }

  lemma {:induction false} RefusedKids(w: Place, i: nat, n: nat, ch: Change)
    requires w.Inside() && i <= n <= |w.Traf().kids| && NewKids(w, i, ch).None?
    ensures NewKids(w, n, ch).None?
  {
    hide NewKid;
    if i < n {
      RefusedKids(w, i, n - 1, ch);
    }
  }

  /** The kids of the located traf, and the traf itself, are as the parser builds them. */
  lemma LocatedBuilt(b: seq<Byte>)
    requires Locate(b).Some?
    ensures var w := Locate(b).value;
      (forall c | c in w.Traf().kids :: c.head <= |c.all|) && w.TrunAt() + |w.Trun().all| <= |b| &&
      w.Trun().head + 8 <= |w.Trun().all| && w.TrafAt() + |w.Traf().all| <= |b|
  {
    hide Parse, Flat, FromBE, IsContainer;
    var w := Locate(b).value;
    var tail := ParseTiles(b);
    var top := Parse(b).value;
    FlatFirst(top);
    assert Placed(top[0], 0 == |top| - 1 && tail == []);
    Containers();
    KidsFit(w.moof, w.j);
    KidsFit(w.Traf(), w.k);
  }

  lemma Containers()
    ensures IsContainer("moof") && IsContainer("traf")
  {
  }

  /** Every child of a parsed container is built and lies inside it. */
  lemma KidsFit(n: Node, i: nat)
    requires Built(n) && IsContainer(n.name) && i < |n.kids|
    ensures forall c | c in n.kids :: Built(c) && c.head <= |c.all|
    ensures KidAt(n, i) + |n.kids[i].all| <= |n.all|
  {
    hide Parse, Flat, FromBE, IsContainer;
    var tail := ParseTiles(n.all[n.head..]);
    FlatConcat(n.kids[..i], n.kids[i..]);
    assert n.kids[..i] + n.kids[i..] == n.kids;
    FlatFirst(n.kids[i..]);
    forall c | c in n.kids
      ensures Built(c) && c.head <= |c.all|
    {
      var k :| 0 <= k < |n.kids| && n.kids[k] == c;
      assert Placed(n.kids[k], k == |n.kids| - 1 && tail == []);
    }
  }

  method MaterializeLiveTrunDefaults(b: seq<Byte>, mdatSize: nat, d: F.Defaults) returns (r: Option<seq<Byte>>)
    ensures r == Normalize(b, mdatSize, d)
  {
    hide Parse, Flat, Rebuild, RunAt, NormalTrun, Walks, Built, Find;
    var boxes := ParseBoxRange(b);
    if boxes.None? || boxes.value == [] || boxes.value[0].name != "moof" {
      return None;
    }
    var moof := boxes.value[0];
    var j := IndexOf(moof.kids, "traf");
    if j == |moof.kids| {
      return None;
    }
    var k := IndexOf(moof.kids[j].kids, "trun");
    if k == |moof.kids[j].kids| || |Payload(moof.kids[j].kids[k])| < 8 {
      return None;
    }
    for i := 0 to |moof.kids|
      invariant forall m | 0 <= m < i ::
        m == j || moof.kids[m].name != "traf" || Find(moof.kids[m].kids, "saio").None?
    {
      if i != j && moof.kids[i].name == "traf" && Find(moof.kids[i].kids, "saio").Some? {
        return None;
      }
    }
    var w := Place(moof, j, k);
    assert Locate(b) == Some(w);
    LocatedBuilt(b);
    var run := ReadRun(b, w.TrunAt() + w.Trun().head, d);
    if run.None? {
      return None;
    }
    var trun := BuildTrun(run.value, 0);
    var placeholder := RebuildMoof(w, Change(trun, false, 0, 0));
    if placeholder.None? {
      return None;
    }
    var size := |placeholder.value|;
    trun := BuildTrun(run.value, size + 8);
    var limit := w.TrafAt() + |w.Traf().all|;
    var senc := FindChildBoxSpan(b, w.TrafAt() + 8, limit, "senc");
    var saiz := FindChildBoxSpan(b, w.TrafAt() + 8, limit, "saiz");
    r := RebuildMoof(w, Change(trun, senc || saiz, |moof.all| + mdatSize, size - |moof.all|));
  }
}
