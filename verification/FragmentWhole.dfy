/**
 * A whole fragment as the strict reader takes it: track fragment by track fragment and
 * run by run, each box being what it is written from.
 */
module FragmentWhole {
  import opened Bytes
  import opened Mp4Boxes
  import opened SampleTables
  import opened SampleLayout
  import opened LocEncoder
  import opened RunFormat
  import opened FragmentReader
  import F = FragmentFields

  /** The boxes of one type, in order. */
  function Named(kids: seq<Node>, name: string): seq<Node>
    decreases |kids|
  {
    if kids == [] then [] else (if kids[0].name == name then [kids[0]] else []) + Named(kids[1..], name)
  }

  // ---- runs in a row

  ghost predicate RunReads(n: Node, head: Head, file: File, from: Place, to: Place)
    requires file.Parsed()
  {
    exists version: Byte, flags: nat, es: seq<Entry>, offset: nat, first: nat ::
      F.IsRun(Payload(n), head, file, from.cursor, from.decode, from.acc, to, version, flags, es, offset, first)
  }

  /** Each run takes up where the one before ends. */
  ghost predicate Runs(truns: seq<Node>, head: Head, file: File, places: seq<Place>)
    requires file.Parsed()
  {
    |places| == |truns| + 1 && forall k | 0 <= k < |truns| :: RunReads(truns[k], head, file, places[k], places[k + 1])
  }

  ghost predicate At(p: Place, cursor: nat, decode: nat, acc: Read) {
    p.cursor == cursor && p.decode == decode && p.acc == acc
  }

  lemma FirstRun(n: Node, head: Head, file: File, from: Place, end: Place)
    requires file.Parsed()
    ensures RunOf(Payload(n), head, file, from.cursor, from.decode, from.acc) == Some(end) <==> RunReads(n, head, file, from, end)
  {
    hide RunOf, F.IsRun;
    F.RunExactly(Payload(n), head, file, from.cursor, from.decode, from.acc, end);
  }

  lemma {:induction false} RunsRead(kids: seq<Node>, head: Head, file: File, places: seq<Place>)
    requires file.Parsed() && Runs(Named(kids, "trun"), head, file, places)
    ensures var last := places[|places| - 1];
      RunsOf(kids, head, file, places[0].cursor, places[0].decode, places[0].acc) == Some((last.cursor, last.acc))
    decreases |kids|
  {
    hide RunReads, RunOf;
    if kids != [] {
      if kids[0].name == "trun" {
        var truns := Named(kids, "trun");
        assert truns[1..] == Named(kids[1..], "trun");
        assert RunReads(truns[0], head, file, places[0], places[1]);
        FirstRun(kids[0], head, file, places[0], places[1]);
        RestOfRuns(truns, head, file, places);
        RunsRead(kids[1..], head, file, places[1..]);
      } else {
        assert [] + Named(kids[1..], "trun") == Named(kids[1..], "trun");
        RunsRead(kids[1..], head, file, places);
      }
    }
  }

  lemma RestOfRuns(truns: seq<Node>, head: Head, file: File, places: seq<Place>)
    requires file.Parsed() && truns != [] && Runs(truns, head, file, places)
    ensures Runs(truns[1..], head, file, places[1..])
  {
    hide RunReads;
    forall k | 0 <= k < |truns| - 1
      ensures RunReads(truns[1..][k], head, file, places[1..][k], places[1..][k + 1])
    {
      assert RunReads(truns[k + 1], head, file, places[k + 1], places[k + 2]);
    }
  }

  lemma OneMoreRun(n: Node, truns: seq<Node>, head: Head, file: File, from: Place, places: seq<Place>)
    requires file.Parsed() && Runs(truns, head, file, places) && RunReads(n, head, file, from, places[0])
    ensures Runs([n] + truns, head, file, [from] + places)
  {
    hide RunReads;
    var all, ps := [n] + truns, [from] + places;
    forall k | 0 <= k < |all|
      ensures RunReads(all[k], head, file, ps[k], ps[k + 1])
    {
      if k > 0 {
        assert RunReads(truns[k - 1], head, file, places[k - 1], places[k]);
      }
    }
  }

  lemma {:induction false} RunsWere(kids: seq<Node>, head: Head, file: File, from: Place) returns (places: seq<Place>)
    requires file.Parsed() && RunsOf(kids, head, file, from.cursor, from.decode, from.acc).Some?
    ensures Runs(Named(kids, "trun"), head, file, places) && places[0] == from
    ensures var last := places[|places| - 1];
      RunsOf(kids, head, file, from.cursor, from.decode, from.acc) == Some((last.cursor, last.acc))
    decreases |kids|
  {
    hide RunReads, RunOf;
    places := [from];
    if kids != [] {
      if kids[0].name == "trun" {
        var end := RunOf(Payload(kids[0]), head, file, from.cursor, from.decode, from.acc).value;
        FirstRun(kids[0], head, file, from, end);
        var rest := RunsWere(kids[1..], head, file, end);
        OneMoreRun(kids[0], Named(kids[1..], "trun"), head, file, from, rest);
        places := [from] + rest;
      } else {
        assert [] + Named(kids[1..], "trun") == Named(kids[1..], "trun");
        places := RunsWere(kids[1..], head, file, from);
      }
    }
  }

  // ---- one track fragment

  /** None of the boxes of encrypted or grouped samples. */
  ghost predicate Plain(kids: seq<Node>) {
    forall c | c in kids :: c.name !in {"senc", "saiz", "saio", "sbgp", "sgpd"}
  }

  ghost predicate HeadReads(n: Node, tracks: seq<FragmentTrack>, moofAt: nat, inherited: nat, live: bool, head: Head) {
    exists flags: nat, id: nat :: F.IsTfhd(Payload(n), tracks, moofAt, inherited, live, head, flags, id)
  }

  /** The header, the time and at least one run, all of whose samples follow those so far. */
  ghost predicate TrafIs(traf: Node, moofAt: nat, inherited: nat, file: File, tracks: seq<FragmentTrack>, live: bool,
                         head: Head, h: nat, d: nat, places: seq<Place>)
    requires file.Parsed()
  {
    Plain(traf.kids) && IsFirst(traf.kids, "tfhd", h) && IsFirst(traf.kids, "tfdt", d) &&
    HeadReads(traf.kids[h], tracks, moofAt, inherited, live, head) && Named(traf.kids, "trun") != [] &&
    Runs(Named(traf.kids, "trun"), head, file, places) && places[0].cursor == head.base &&
    IsTfdt(Payload(traf.kids[d]), places[0].decode)
  }

  /** Reading the track fragment leads from what was read before it to this. */
  ghost predicate TrafReads(traf: Node, moofAt: nat, file: File, tracks: seq<FragmentTrack>, live: bool, from: (nat, Read),
                            to: (nat, Read))
    requires file.Parsed()
  {
    exists head: Head, h: nat, d: nat, places: seq<Place> ::
      TrafIs(traf, moofAt, from.0, file, tracks, live, head, h, d, places) && places[0].acc == from.1 &&
      to == (places[|places| - 1].cursor, places[|places| - 1].acc)
  }

  lemma GroupedExactly(kids: seq<Node>)
    ensures Grouped(kids) <==> !Plain(kids)
  {
    if c :| c in kids && c.name in {"senc", "saiz", "saio", "sbgp", "sgpd"} {
      var k :| 0 <= k < |kids| && kids[k] == c;
      assert kids[k].name == c.name;
    }
    if Grouped(kids) {
      var k :| 0 <= k < |kids| && kids[k].name in {"senc", "saiz", "saio", "sbgp", "sgpd"};
      assert kids[k] in kids;
    }
  }

  lemma {:induction false} NamedExactly(kids: seq<Node>, name: string)
    ensures Find(kids, name).Some? <==> Named(kids, name) != []
    decreases |kids|
  {
    if kids != [] {
      NamedExactly(kids[1..], name);
    }
  }

  lemma TrafExactly(traf: Node, moofAt: nat, inherited: nat, file: File, tracks: seq<FragmentTrack>, live: bool, acc: Read,
                    end: (nat, Read))
    requires file.Parsed()
    ensures TrafOf(traf, moofAt, inherited, file, tracks, live, acc) == Some(end) <==>
      TrafReads(traf, moofAt, file, tracks, live, (inherited, acc), end)
  {
    hide Grouped, Plain, HeadOf, TimeOf, RunsOf, HeadReads, RunReads, Named, IsTfdt;
    if TrafOf(traf, moofAt, inherited, file, tracks, live, acc) == Some(end) {
      TrafWas(traf, moofAt, inherited, file, tracks, live, acc);
    }
    if head: Head, h: nat, d: nat, places: seq<Place> :|
       TrafIs(traf, moofAt, inherited, file, tracks, live, head, h, d, places) && places[0].acc == acc &&
       end == (places[|places| - 1].cursor, places[|places| - 1].acc) {
      TrafRead(traf, moofAt, inherited, file, tracks, live, head, h, d, places);
    }
  }

  lemma TrafRead(traf: Node, moofAt: nat, inherited: nat, file: File, tracks: seq<FragmentTrack>, live: bool, head: Head,
                 h: nat, d: nat, places: seq<Place>)
    requires file.Parsed() && TrafIs(traf, moofAt, inherited, file, tracks, live, head, h, d, places)
    ensures TrafOf(traf, moofAt, inherited, file, tracks, live, places[0].acc) ==
      Some((places[|places| - 1].cursor, places[|places| - 1].acc))
  {
    hide Grouped, Plain, HeadOf, TimeOf, RunsOf, RunReads, Named, IsTfdt, F.IsTfhd;
    GroupedExactly(traf.kids);
    FirstIs(traf.kids, "tfhd", h);
    FirstIs(traf.kids, "tfdt", d);
    F.HeadExactly(Payload(traf.kids[h]), tracks, moofAt, inherited, live, head);
    F.TimeExactly(Payload(traf.kids[d]), places[0].decode);
    NamedExactly(traf.kids, "trun");
    RunsRead(traf.kids, head, file, places);
  }

  lemma TrafWas(traf: Node, moofAt: nat, inherited: nat, file: File, tracks: seq<FragmentTrack>, live: bool, acc: Read)
    requires file.Parsed() && TrafOf(traf, moofAt, inherited, file, tracks, live, acc).Some?
    ensures TrafReads(traf, moofAt, file, tracks, live, (inherited, acc),
                      TrafOf(traf, moofAt, inherited, file, tracks, live, acc).value)
  {
    hide Grouped, Plain, HeadOf, TimeOf, RunsOf, Runs, Named, IsTfdt, F.IsTfhd;
    var h, d := IndexOf(traf.kids, "tfhd"), IndexOf(traf.kids, "tfdt");
    GroupedExactly(traf.kids);
    FirstIs(traf.kids, "tfhd", h);
    FirstIs(traf.kids, "tfdt", d);
    var head := HeadOf(Payload(traf.kids[h]), tracks, moofAt, inherited, live).value;
    var time := TimeOf(Payload(traf.kids[d])).value;
    F.HeadExactly(Payload(traf.kids[h]), tracks, moofAt, inherited, live, head);
    F.TimeExactly(Payload(traf.kids[d]), time);
    NamedExactly(traf.kids, "trun");
    var places := RunsWere(traf.kids, head, file, Place(0, head.base, time, acc));
    assert TrafIs(traf, moofAt, inherited, file, tracks, live, head, h, d, places);
  }

  // ---- the moof

  /** Each track fragment takes up where the one before ends. */
  ghost predicate Trafs(trafs: seq<Node>, moofAt: nat, file: File, tracks: seq<FragmentTrack>, live: bool,
                        ends: seq<(nat, Read)>)
    requires file.Parsed()
  {
    |ends| == |trafs| + 1 &&
    forall k | 0 <= k < |trafs| :: TrafReads(trafs[k], moofAt, file, tracks, live, ends[k], ends[k + 1])
  }

  lemma {:induction false} TrafsRead(kids: seq<Node>, moofAt: nat, file: File, tracks: seq<FragmentTrack>, live: bool,
                                     ends: seq<(nat, Read)>)
    requires file.Parsed() && Trafs(Named(kids, "traf"), moofAt, file, tracks, live, ends)
    ensures TrafsOf(kids, moofAt, ends[0].0, file, tracks, live, ends[0].1) == Some(ends[|ends| - 1])
    decreases |kids|
  {
    hide TrafReads, TrafOf;
    if kids != [] {
      if kids[0].name == "traf" {
        var trafs := Named(kids, "traf");
        assert trafs[1..] == Named(kids[1..], "traf");
        assert TrafReads(trafs[0], moofAt, file, tracks, live, ends[0], ends[1]);
        TrafExactly(kids[0], moofAt, ends[0].0, file, tracks, live, ends[0].1, ends[1]);
        RestOfTrafs(trafs, moofAt, file, tracks, live, ends);
        TrafsRead(kids[1..], moofAt, file, tracks, live, ends[1..]);
      } else {
        assert [] + Named(kids[1..], "traf") == Named(kids[1..], "traf");
        TrafsRead(kids[1..], moofAt, file, tracks, live, ends);
      }
    }
  }

  lemma RestOfTrafs(trafs: seq<Node>, moofAt: nat, file: File, tracks: seq<FragmentTrack>, live: bool,
                    ends: seq<(nat, Read)>)
    requires file.Parsed() && trafs != [] && Trafs(trafs, moofAt, file, tracks, live, ends)
    ensures Trafs(trafs[1..], moofAt, file, tracks, live, ends[1..])
  {
    hide TrafReads;
    forall k | 0 <= k < |trafs| - 1
      ensures TrafReads(trafs[1..][k], moofAt, file, tracks, live, ends[1..][k], ends[1..][k + 1])
    {
      assert TrafReads(trafs[k + 1], moofAt, file, tracks, live, ends[k + 1], ends[k + 2]);
    }
  }

  lemma OneMoreTraf(n: Node, trafs: seq<Node>, moofAt: nat, file: File, tracks: seq<FragmentTrack>, live: bool,
                    from: (nat, Read), ends: seq<(nat, Read)>)
    requires file.Parsed() && Trafs(trafs, moofAt, file, tracks, live, ends)
    requires TrafReads(n, moofAt, file, tracks, live, from, ends[0])
    ensures Trafs([n] + trafs, moofAt, file, tracks, live, [from] + ends)
  {
    hide TrafReads;
    var all, es := [n] + trafs, [from] + ends;
    forall k | 0 <= k < |all|
      ensures TrafReads(all[k], moofAt, file, tracks, live, es[k], es[k + 1])
    {
      if k > 0 {
        assert TrafReads(trafs[k - 1], moofAt, file, tracks, live, ends[k - 1], ends[k]);
      }
    }
  }

  lemma {:induction false} TrafsWere(kids: seq<Node>, moofAt: nat, file: File, tracks: seq<FragmentTrack>, live: bool,
                                     from: (nat, Read)) returns (ends: seq<(nat, Read)>)
    requires file.Parsed() && TrafsOf(kids, moofAt, from.0, file, tracks, live, from.1).Some?
    ensures Trafs(Named(kids, "traf"), moofAt, file, tracks, live, ends) && ends[0] == from
    ensures TrafsOf(kids, moofAt, from.0, file, tracks, live, from.1) == Some(ends[|ends| - 1])
    decreases |kids|
  {
    hide TrafReads, TrafOf;
    ends := [from];
    if kids != [] {
      if kids[0].name == "traf" {
        var end := TrafOf(kids[0], moofAt, from.0, file, tracks, live, from.1).value;
        TrafExactly(kids[0], moofAt, from.0, file, tracks, live, from.1, end);
        var rest := TrafsWere(kids[1..], moofAt, file, tracks, live, end);
        OneMoreTraf(kids[0], Named(kids[1..], "traf"), moofAt, file, tracks, live, from, rest);
        ends := [from] + rest;
      } else {
        assert [] + Named(kids[1..], "traf") == Named(kids[1..], "traf");
        ends := TrafsWere(kids[1..], moofAt, file, tracks, live, from);
      }
    }
  }

  ghost predicate FragmentReads(moof: Node, moofAt: nat, file: File, tracks: seq<FragmentTrack>, live: bool, acc: Read,
                                read: Read)
    requires file.Parsed()
  {
    exists ends: seq<(nat, Read)> ::
      Trafs(Named(moof.kids, "traf"), moofAt, file, tracks, live, ends) && ends[0] == (moofAt, acc) &&
      read == ends[|ends| - 1].1
  }

  /** A fragment reads as these samples exactly when its track fragments, one after the other, state them. */
  lemma FragmentExactly(moof: Node, moofAt: nat, file: File, tracks: seq<FragmentTrack>, live: bool, acc: Read, read: Read)
    requires file.Parsed()
    ensures FragmentOf(moof, moofAt, file, tracks, live, acc) == Some(read) <==>
      FragmentReads(moof, moofAt, file, tracks, live, acc, read)
  {
    hide TrafReads, TrafsOf, Named;
    if FragmentOf(moof, moofAt, file, tracks, live, acc) == Some(read) {
      var ends := TrafsWere(moof.kids, moofAt, file, tracks, live, (moofAt, acc));
    }
    if ends: seq<(nat, Read)> :|
       Trafs(Named(moof.kids, "traf"), moofAt, file, tracks, live, ends) && ends[0] == (moofAt, acc) &&
       read == ends[|ends| - 1].1 {
      TrafsRead(moof.kids, moofAt, file, tracks, live, ends);
    }
  }

  /** A moof and its mdat, and nothing else, up to 512 MiB; the moof states samples in the mdat. */
  ghost predicate PairReads(moof: seq<Byte>, mdat: seq<Byte>, tracks: seq<FragmentTrack>, a: Node, b: Node, read: Read) {
    |moof| + |mdat| <= 512 * 1024 * 1024 && Parse(moof + mdat) == Some([a, b]) && a.name == "moof" && a.all == moof &&
    b.name == "mdat" && PairFile(moof, mdat, b).Parsed() &&
    FragmentReads(a, 0, PairFile(moof, mdat, b), tracks, true, Read([], 0), read)
  }

  lemma PairExactly(moof: seq<Byte>, mdat: seq<Byte>, tracks: seq<FragmentTrack>, values: seq<Sample>)
    ensures FragmentSamples(moof, mdat, tracks) == Some(values) <==>
      exists a, b, count: nat :: PairReads(moof, mdat, tracks, a, b, Read(values, count))
  {
    hide Parse, FragmentOf, FragmentReads;
    if FragmentSamples(moof, mdat, tracks) == Some(values) {
      var nodes := Parse(moof + mdat).value;
      assert nodes == [nodes[0], nodes[1]];
      var file := PairFile(moof, mdat, nodes[1]);
      var read := FragmentOf(nodes[0], 0, file, tracks, true, Read([], 0)).value;
      FragmentExactly(nodes[0], 0, file, tracks, true, Read([], 0), read);
      assert PairReads(moof, mdat, tracks, nodes[0], nodes[1], Read(values, read.byteCount));
    }
    if a, b, count: nat :| PairReads(moof, mdat, tracks, a, b, Read(values, count)) {
      FragmentExactly(a, 0, PairFile(moof, mdat, b), tracks, true, Read([], 0), Read(values, count));
    }
  }
}
