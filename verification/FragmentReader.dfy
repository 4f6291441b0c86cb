/** The strict reader of clear CMAF fragments: one moof, expanded to the samples of its runs. */
module FragmentReader {
  import opened Bytes
  import opened Mp4Boxes
  import opened SampleTables
  import opened SampleLayout
  import opened LocEncoder

  datatype Defaults = Defaults(duration: nat, size: nat, flags: nat)

  /** `clear` says that the track is unencrypted and of a supported codec. */
  datatype FragmentTrack = FragmentTrack(id: nat, track: Track, clear: bool, defaults: Defaults)

  datatype Read = Read(values: seq<Sample>, byteCount: nat)

  // ---- fields

  /** An optional 32-bit field: its value, or the default, and where the next one is. */
  function Take(b: seq<Byte>, pos: nat, present: bool, default_: nat): Option<(nat, nat)> {
    if !present then Some((default_, pos))
    else if pos + 4 <= |b| then Some((FromBE(b[pos..pos + 4]), pos + 4))
    else None
  }

  method GetIf(reader: Reader, present: bool, default_: nat) returns (r: Option<nat>)
    requires reader.Valid()
    modifies reader`pos
    ensures reader.Valid()
    ensures r.Some? <==> Take(reader.bytes, old(reader.pos), present, default_).Some?
    ensures r.Some? ==> Take(reader.bytes, old(reader.pos), present, default_) == Some((r.value, reader.pos))
  {
    if present {
      r := reader.Get(4);
    } else {
      r := Some(default_);
    }
  }

  function FindTrack(tracks: seq<FragmentTrack>, id: nat): Option<FragmentTrack> {
    if tracks == [] then None else if tracks[0].id == id then Some(tracks[0]) else FindTrack(tracks[1..], id)
  }

  // ---- tfhd and tfdt

  /** What a track fragment header settles for its runs. */
  datatype Head = Head(track: FragmentTrack, defaults: Defaults, base: nat, empty: bool)

  const TfhdFlags := 0x03003b
  const TrunFlags := 0x000f05

  function HeadFields(b: seq<Byte>, flags: nat, track: FragmentTrack, base: nat, pos: nat): Option<Head> {
    var description := Take(b, pos, HasBit(flags, 1), 1);
    if description.None? || description.value.0 != 1 then None
    else
      var duration := Take(b, description.value.1, HasBit(flags, 3), track.defaults.duration);
      if duration.None? then None
      else
        var size := Take(b, duration.value.1, HasBit(flags, 4), track.defaults.size);
        if size.None? then None
        else
          var sampleFlags := Take(b, size.value.1, HasBit(flags, 5), track.defaults.flags);
          if sampleFlags.None? || sampleFlags.value.1 != |b| then None
          else Some(Head(track, Defaults(duration.value.0, size.value.0, sampleFlags.value.0), base, HasBit(flags, 16)))
  }

  function HeadOf(b: seq<Byte>, tracks: seq<FragmentTrack>, moofAt: nat, inherited: nat, live: bool): Option<Head> {
    if |b| < 8 || b[0] != 0 then None
    else
      var flags := FromBE(b[1..4]);
      var track := FindTrack(tracks, FromBE(b[4..8]));
      if !OnlyBits(flags, TfhdFlags) || track.None? || !track.value.clear then None
      else if HasBit(flags, 0) then
        if live || |b| < 16 then None else HeadFields(b, flags, track.value, FromBE(b[8..16]), 16)
      else HeadFields(b, flags, track.value, if HasBit(flags, 17) then moofAt else inherited, 8)
  }

  /** The optional fields, up to the end of the box. */
  method ReadHeadFields(reader: Reader, flags: nat, track: FragmentTrack, base: nat) returns (r: Option<Head>)
    requires reader.Valid()
    modifies reader`pos
    ensures r == HeadFields(reader.bytes, flags, track, base, old(reader.pos))
  {
    hide HasBit, Take;
    var description := GetIf(reader, HasBit(flags, 1), 1);
    if description.None? || description.value != 1 { return None; }
    var duration := GetIf(reader, HasBit(flags, 3), track.defaults.duration);
    if duration.None? { return None; }
    var size := GetIf(reader, HasBit(flags, 4), track.defaults.size);
    if size.None? { return None; }
    var sampleFlags := GetIf(reader, HasBit(flags, 5), track.defaults.flags);
    if sampleFlags.None? || reader.pos != |reader.bytes| { return None; }
    return Some(Head(track, Defaults(duration.value, size.value, sampleFlags.value), base, HasBit(flags, 16)));
  }

  method ReadHead(b: seq<Byte>, tracks: seq<FragmentTrack>, moofAt: nat, inherited: nat, live: bool)
    returns (r: Option<Head>)
    ensures r == HeadOf(b, tracks, moofAt, inherited, live)
  {
    hide HasBit, OnlyBits, FromBE, FindTrack, HeadFields;
    var reader := new Reader(b);
    var version := reader.Get(1);
    OneByte(b);
    if version.None? || version.value != 0 { return None; }
    var flags := reader.Get(3);
    if flags.None? { return None; }
    var id := reader.Get(4);
    if id.None? || !OnlyBits(flags.value, TfhdFlags) { return None; }
    var track := FindTrack(tracks, id.value);
    if track.None? || !track.value.clear { return None; }
    var base := if HasBit(flags.value, 17) then moofAt else inherited;
    if HasBit(flags.value, 0) {
      if live { return None; }
      var absolute := reader.Get(8);
      if absolute.None? { return None; }
      base := absolute.value;
    }
    r := ReadHeadFields(reader, flags.value, track.value, base);
  }

  lemma OneByte(b: seq<Byte>)
    ensures |b| > 0 ==> FromBE(b[0..1]) == b[0]
  {
    if |b| > 0 {
      assert b[0..1] == [b[0]] && FromBE([b[0]]) == b[0] + 256 * FromBE([]);
    }
  }

  function TimeOf(b: seq<Byte>): Option<nat> {
    if |b| < 4 || b[0] > 1 || FromBE(b[1..4]) != 0 || |b| != (if b[0] == 1 then 12 else 8) then None
    else Some(FromBE(b[4..]))
  }

  method ReadTime(b: seq<Byte>) returns (r: Option<nat>)
    ensures r == TimeOf(b)
  {
    hide FromBE;
    var reader := new Reader(b);
    var version := reader.Get(1);
    OneByte(b);
    if version.None? || version.value > 1 { return None; }
    var flags := reader.Get(3);
    if flags.None? || flags.value != 0 { return None; }
    var time := reader.Get(if version.value == 1 then 8 else 4);
    if time.None? || reader.pos != |b| { return None; }
    assert b[4..|b|] == b[4..];
    return time;
  }

  // ---- one run

  function Pushed(acc: Read, track: Track, file: File, at: nat, size: nat, decode: nat, shift: int, duration: nat,
                  sync: bool): Option<Read>
    requires file.Parsed()
  {
    if |acc.values| < MaxSamples && acc.byteCount + size <= MaxSampleBytes &&
       Sound(track, file, at, size, decode, shift, duration)
    then Some(Read(acc.values + [SampleOf(track, file, at, size, decode, shift, duration, sync)], acc.byteCount + size))
    else None
  }

  /** A sample is a sync sample unless its flags say otherwise; sound always is. */
  predicate SyncFlag(video: bool, flags: nat) {
    !video || (!HasBit(flags, 16) && flags / 0x100_0000 % 4 != 1)
  }

  /** Where a run has got to. */
  datatype Place = Place(pos: nat, cursor: nat, decode: nat, acc: Read)

  function RowOf(b: seq<Byte>, head: Head, file: File, flags: nat, signed: bool, sampleFlags: nat,
                 p: Place): Option<Place>
    requires file.Parsed()
  {
    var duration := Take(b, p.pos, HasBit(flags, 8), head.defaults.duration);
    if duration.None? then None
    else
      var size := Take(b, duration.value.1, HasBit(flags, 9), head.defaults.size);
      if size.None? then None
      else
        var own := Take(b, size.value.1, HasBit(flags, 10), sampleFlags);
        if own.None? then None
        else
          var raw := Take(b, own.value.1, HasBit(flags, 11), 0);
          if raw.None? then None
          else
            var shift := if signed then Signed32(raw.value.0) else raw.value.0;
            var acc := Pushed(p.acc, head.track.track, file, p.cursor, size.value.0, p.decode, shift, duration.value.0,
                              SyncFlag(head.track.track.video, own.value.0));
            if acc.None? || p.decode + duration.value.0 > MaxU64 then None
            else Some(Place(raw.value.1, p.cursor + size.value.0, p.decode + duration.value.0, acc.value))
  }

  /** The rows of a run from row `i` on; the first row has flags of its own. */
  function RowsOf(b: seq<Byte>, head: Head, file: File, flags: nat, signed: bool, first: nat, i: nat, count: nat,
                  p: Place): Option<Place>
    requires file.Parsed() && i <= count
    decreases count - i
  {
    if i == count then Some(p)
    else
      var next := RowOf(b, head, file, flags, signed, if i == 0 then first else head.defaults.flags, p);
      if next.None? then None else RowsOf(b, head, file, flags, signed, first, i + 1, count, next.value)
  }

  /** `offset`: a signed displacement that must stay within 64 bits. */
  function Displaced(base: nat, step: int): Option<nat> {
    if base + step < 0 || base + step > MaxU64 then None else Some(base + step)
  }

  function RunOf(b: seq<Byte>, head: Head, file: File, cursor: nat, decode: nat, acc: Read): Option<Place>
    requires file.Parsed()
  {
    if |b| < 8 || b[0] > 1 || !OnlyBits(FromBE(b[1..4]), TrunFlags) ||
       (HasBit(FromBE(b[1..4]), 2) && HasBit(FromBE(b[1..4]), 10)) || FromBE(b[4..8]) + |acc.values| > MaxSamples ||
       (head.empty && FromBE(b[4..8]) != 0)
    then None
    else
      var flags := FromBE(b[1..4]);
      var offset := Take(b, 8, HasBit(flags, 0), 0);
      if offset.None? then None
      else
        var start := if HasBit(flags, 0) then Displaced(head.base, Signed32(offset.value.0)) else Some(cursor);
        var first := Take(b, offset.value.1, HasBit(flags, 2), head.defaults.flags);
        if start.None? || first.None? then None
        else
          var end := RowsOf(b, head, file, flags, b[0] == 1, first.value.0, 0, FromBE(b[4..8]),
                            Place(first.value.1, start.value, decode, acc));
          if end.None? || end.value.pos != |b| then None else end
  }

  ghost function Now(out: Samples): Read
    reads out
  {
    Read(out.values, out.byteCount)
  }

  method PushSample(out: Samples, track: Track, file: File, at: nat, size: nat, decode: nat, shift: int, duration: nat,
                    sync: bool) returns (ok: bool)
    requires out.Valid() && file.Parsed()
    modifies out
    ensures out.Valid()
    ensures var next := Pushed(old(Now(out)), track, file, at, size, decode, shift, duration, sync);
      (ok <==> next.Some?) && (ok ==> next == Some(Now(out)))
  {
    hide Sound, SampleOf;
    ok := out.Push(track, file, at, size, decode, shift, duration, sync);
  }

  /** One row of a run, read and pushed. */
  method ReadRow(out: Samples, reader: Reader, head: Head, file: File, flags: nat, signed: bool, sampleFlags: nat,
                 cursor: nat, decode: nat) returns (r: Option<(nat, nat)>)
    requires out.Valid() && reader.Valid() && file.Parsed()
    modifies out, reader`pos
    ensures out.Valid() && reader.Valid()
    ensures var was := Place(old(reader.pos), cursor, decode, old(Now(out)));
      var next := RowOf(reader.bytes, head, file, flags, signed, sampleFlags, was);
      (r.Some? <==> next.Some?) &&
      (r.Some? ==> next == Some(Place(reader.pos, r.value.0, r.value.1, Now(out))))
  {
    hide HasBit, Sound, SampleOf, FromBE, Take, SyncFlag, Signed32, Pushed;
    var duration := GetIf(reader, HasBit(flags, 8), head.defaults.duration);
    if duration.None? { return None; }
    var size := GetIf(reader, HasBit(flags, 9), head.defaults.size);
    if size.None? { return None; }
    var own := GetIf(reader, HasBit(flags, 10), sampleFlags);
    if own.None? { return None; }
    var raw := GetIf(reader, HasBit(flags, 11), 0);
    if raw.None? { return None; }
    var shift := if signed then Signed32(raw.value) else raw.value;
    var ok := PushSample(out, head.track.track, file, cursor, size.value, decode, shift, duration.value,
                         SyncFlag(head.track.track.video, own.value));
    if !ok || decode + duration.value > MaxU64 { return None; }
    return Some((cursor + size.value, decode + duration.value));
  }

  /** One trun; the result is where its bytes and its time end. */
  method ReadRun(out: Samples, b: seq<Byte>, head: Head, file: File, cursor: nat, decode: nat)
    returns (r: Option<(nat, nat)>)
    requires out.Valid() && file.Parsed()
    modifies out
    ensures out.Valid()
    ensures var end := RunOf(b, head, file, cursor, decode, old(Now(out)));
      (r.Some? <==> end.Some?) && (r.Some? ==> end == Some(Place(|b|, r.value.0, r.value.1, Now(out))))
  {
    hide HasBit, OnlyBits, FromBE, RowOf, Take, Displaced, Signed32;
    ghost var acc := Now(out);
    var reader := new Reader(b);
    var version := reader.Get(1);
    OneByte(b);
    if version.None? { return None; }
    var flagBits := reader.Get(3);
    if flagBits.None? { return None; }
    var flags := flagBits.value;
    if version.value > 1 || !OnlyBits(flags, TrunFlags) || (HasBit(flags, 2) && HasBit(flags, 10)) { return None; }
    var count := reader.Get(4);
    if count.None? || count.value > MaxSamples - |out.values| || (head.empty && count.value != 0) { return None; }
    var at := Some(cursor);
    var offset := GetIf(reader, HasBit(flags, 0), 0);
    if offset.None? { return None; }
    if HasBit(flags, 0) {
      at := Displaced(head.base, Signed32(offset.value));
      if at.None? { return None; }
    }
    var first := GetIf(reader, HasBit(flags, 2), head.defaults.flags);
    if first.None? { return None; }
    ghost var begin := Place(reader.pos, at.value, decode, acc);
    ghost var all := RowsOf(b, head, file, flags, version.value == 1, first.value, 0, count.value, begin);
    var end := (at.value, decode);
    for i := 0 to count.value
      invariant out.Valid() && fresh(reader) && reader.Valid() && reader.bytes == b
      invariant RowsOf(b, head, file, flags, version.value == 1, first.value, i, count.value,
                       Place(reader.pos, end.0, end.1, Now(out))) == all
    {
      var next := ReadRow(out, reader, head, file, flags, version.value == 1,
                          if i == 0 then first.value else head.defaults.flags, end.0, end.1);
      if next.None? { return None; }
      end := next.value;
    }
    if reader.pos != |b| { return None; }
    return Some(end);
  }

  // ---- one track fragment, and the moof

  /** The runs among these boxes, in order. */
  function RunsOf(kids: seq<Node>, head: Head, file: File, cursor: nat, decode: nat, acc: Read): Option<(nat, Read)>
    requires file.Parsed()
  {
    if kids == [] then Some((cursor, acc))
    else if kids[0].name != "trun" then RunsOf(kids[1..], head, file, cursor, decode, acc)
    else
      var end := RunOf(Payload(kids[0]), head, file, cursor, decode, acc);
      if end.None? then None else RunsOf(kids[1..], head, file, end.value.cursor, end.value.decode, end.value.acc)
  }

  predicate Grouped(kids: seq<Node>) {
    exists k | 0 <= k < |kids| :: kids[k].name == "senc" || kids[k].name == "saiz" || kids[k].name == "saio" ||
                                  kids[k].name == "sbgp" || kids[k].name == "sgpd"
  }

  /** Where the bytes of one traf end, and the samples so far. */
  function TrafOf(traf: Node, moofAt: nat, inherited: nat, file: File, tracks: seq<FragmentTrack>, live: bool,
                  acc: Read): Option<(nat, Read)>
    requires file.Parsed()
  {
    if Grouped(traf.kids) || Find(traf.kids, "tfhd").None? || Find(traf.kids, "tfdt").None? then None
    else
      var head := HeadOf(Payload(Find(traf.kids, "tfhd").value), tracks, moofAt, inherited, live);
      var time := TimeOf(Payload(Find(traf.kids, "tfdt").value));
      if head.None? || time.None? || Find(traf.kids, "trun").None? then None
      else RunsOf(traf.kids, head.value, file, head.value.base, time.value, acc)
  }

  function TrafsOf(kids: seq<Node>, moofAt: nat, inherited: nat, file: File, tracks: seq<FragmentTrack>, live: bool,
                   acc: Read): Option<(nat, Read)>
    requires file.Parsed()
  {
    if kids == [] then Some((inherited, acc))
    else if kids[0].name != "traf" then TrafsOf(kids[1..], moofAt, inherited, file, tracks, live, acc)
    else
      var end := TrafOf(kids[0], moofAt, inherited, file, tracks, live, acc);
      if end.None? then None else TrafsOf(kids[1..], moofAt, end.value.0, file, tracks, live, end.value.1)
  }

  /** The samples after reading one fragment whose moof starts at `moofAt`. */
  function FragmentOf(moof: Node, moofAt: nat, file: File, tracks: seq<FragmentTrack>, live: bool,
                      acc: Read): Option<Read>
    requires file.Parsed()
  {
    var end := TrafsOf(moof.kids, moofAt, moofAt, file, tracks, live, acc);
    if end.None? then None else Some(end.value.1)
  }

  method ReadRuns(out: Samples, kids: seq<Node>, head: Head, file: File, decode: nat) returns (end: Option<nat>)
    requires out.Valid() && file.Parsed()
    modifies out
    ensures out.Valid()
    ensures var runs := RunsOf(kids, head, file, head.base, decode, old(Now(out)));
      (end.Some? <==> runs.Some? && Find(kids, "trun").Some?) &&
      (end.Some? ==> runs == Some((end.value, Now(out))))
  {
    hide RunOf;
    var cursor, time, have := head.base, decode, false;
    ghost var acc := Now(out);
    ghost var all := RunsOf(kids, head, file, cursor, time, acc);
    assert kids[0..] == kids;
    for k := 0 to |kids|
      invariant out.Valid() && RunsOf(kids[k..], head, file, cursor, time, Now(out)) == all
      invariant Find(kids, "trun").Some? <==> have || Find(kids[k..], "trun").Some?
    {
      assert kids[k..][1..] == kids[k + 1..];
      if kids[k].name != "trun" {
        continue;
      }
      have := true;
      var next := ReadRun(out, Payload(kids[k]), head, file, cursor, time);
      if next.None? {
        return None;
      }
      cursor, time := next.value.0, next.value.1;
    }
    return if have then Some(cursor) else None;
  }

  method ReadTraf(out: Samples, traf: Node, moofAt: nat, inherited: nat, file: File, tracks: seq<FragmentTrack>,
                  live: bool) returns (end: Option<nat>)
    requires out.Valid() && file.Parsed()
    modifies out
    ensures out.Valid()
    ensures var all := TrafOf(traf, moofAt, inherited, file, tracks, live, old(Now(out)));
      (end.Some? <==> all.Some?) && (end.Some? ==> all == Some((end.value, Now(out))))
  {
    hide RunsOf, HeadOf, TimeOf;
    for k := 0 to |traf.kids|
      invariant out.values == old(out.values) && out.byteCount == old(out.byteCount)
      invariant forall j | 0 <= j < k :: !(traf.kids[j].name in ["senc", "saiz", "saio", "sbgp", "sgpd"])
    {
      if traf.kids[k].name in ["senc", "saiz", "saio", "sbgp", "sgpd"] {
        return None;
      }
    }
    var tfhd := Find(traf.kids, "tfhd");
    if tfhd.None? {
      return None;
    }
    var head := ReadHead(Payload(tfhd.value), tracks, moofAt, inherited, live);
    var tfdt := Find(traf.kids, "tfdt");
    if head.None? || tfdt.None? {
      return None;
    }
    var time := ReadTime(Payload(tfdt.value));
    if time.None? {
      return None;
    }
    end := ReadRuns(out, traf.kids, head.value, file, time.value);
  }

  /** `fragment`, as the file reader calls it. */
  method ReadFragment(out: Samples, moof: Node, moofAt: nat, file: File, tracks: seq<FragmentTrack>, live: bool)
    returns (ok: bool)
    requires out.Valid() && file.Parsed()
    modifies out
    ensures out.Valid()
    ensures ok <==> FragmentOf(moof, moofAt, file, tracks, live, old(Now(out))).Some?
    ensures ok ==> FragmentOf(moof, moofAt, file, tracks, live, old(Now(out))) == Some(Now(out))
  {
    hide TrafOf;
    var inherited := moofAt;
    ghost var all := TrafsOf(moof.kids, moofAt, moofAt, file, tracks, live, Now(out));
    assert moof.kids[0..] == moof.kids;
    for k := 0 to |moof.kids|
      invariant out.Valid() && TrafsOf(moof.kids[k..], moofAt, inherited, file, tracks, live, Now(out)) == all
    {
      assert moof.kids[k..][1..] == moof.kids[k + 1..];
      if moof.kids[k].name == "traf" {
        var end := ReadTraf(out, moof.kids[k], moofAt, inherited, file, tracks, live);
        if end.None? {
          return false;
        }
        inherited := end.value;
      }
    }
    return true;
  }

  // ---- a live fragment on its own

  /** The payload of the box that follows the moof. */
  function PairFile(moof: seq<Byte>, mdat: seq<Byte>, second: Node): File {
    File(moof + mdat, [(|moof| + second.head, |Payload(second)|)])
  }

  /** The samples of a moof and its mdat; None for an exception. */
  function FragmentSamples(moof: seq<Byte>, mdat: seq<Byte>, tracks: seq<FragmentTrack>): Option<seq<Sample>> {
    if |moof| + |mdat| > MaxSampleBytes || Parse(moof + mdat).None? || |Parse(moof + mdat).value| != 2 then None
    else
      var nodes := Parse(moof + mdat).value;
      var file := PairFile(moof, mdat, nodes[1]);
      if nodes[0].name != "moof" || nodes[0].all != moof || nodes[1].name != "mdat" || !file.Parsed() then None
      else
        var read := FragmentOf(nodes[0], 0, file, tracks, true, Read([], 0));
        if read.None? then None else Some(read.value.values)
  }

  /** The second box of a pair lies within the bytes. */
  lemma PairParsed(moof: seq<Byte>, mdat: seq<Byte>, a: Node, b: Node)
    requires Parse(moof + mdat) == Some([a, b]) && |moof| + |mdat| <= MaxSampleBytes && |a.all| == |moof|
    ensures a.all == moof && PairFile(moof, mdat, b).Parsed()
  {
    hide Parse, Stated, ToTheEnd, IsContainer;
    var tail := ParseTiles(moof + mdat);
    var bytes := moof + mdat;
    assert Placed([a, b][1], 1 == 1 && tail == []);
    FlatFirst([a, b]);
    assert [a, b][1..] == [b];
    FlatFirst([b]);
    assert [b][1..] == [];
    assert bytes == a.all + (b.all + []) + tail;
    assert bytes[..|moof|] == a.all && bytes[..|moof|] == moof;
    assert |bytes| == |a.all| + |b.all| + |tail|;
  }

  method ReadFragmentSamples(moof: seq<Byte>, mdat: seq<Byte>, tracks: seq<FragmentTrack>)
    returns (r: Option<seq<Sample>>)
    ensures r == FragmentSamples(moof, mdat, tracks)
  {
    hide Parse, FragmentOf;
    if |moof| > MaxSampleBytes || |mdat| > MaxSampleBytes - |moof| { return None; }
    var bytes := moof + mdat;
    var boxes := ParseBoxRange(bytes);
    if boxes.None? || |boxes.value| != 2 || boxes.value[0].name != "moof" || |boxes.value[0].all| != |moof| ||
       boxes.value[1].name != "mdat" {
      return None;
    }
    assert boxes.value == [boxes.value[0], boxes.value[1]];
    PairParsed(moof, mdat, boxes.value[0], boxes.value[1]);
    var file := PairFile(moof, mdat, boxes.value[1]);
    var out := new Samples();
    var ok := ReadFragment(out, boxes.value[0], 0, file, tracks, true);
    if !ok { return None; }
    return Some(out.values);
  }
}
