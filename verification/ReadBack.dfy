/**
 * A coalesced object read by the strict fragment reader gives back the samples it
 * was made from, and the objects of a track together give what the LOC path reads
 * from the progressive file.
 */
module ReadBack {
  import opened Bytes
  import opened Mp4Boxes
  import opened BoxWriter
  import opened SampleTables
  import opened SampleLayout
  import opened LocEncoder
  import opened FragmentReader
  import C = CmafObject
  import Coalesce

  // ---- the samples to get back

  /** A sample the reader has nothing against. */
  predicate Readable(t: C.RemuxTrack, file: seq<Byte>, track: Track, i: nat)
    requires t.Valid(file) && i < |t.sizes|
  {
    t.sizes[i] > 0 && t.durations[i] > 0 && (track.video ==> track.inspect(t.Bytes(file, i)).Some?) &&
    Presentable(Coalesce.Time(t, i), t.shifts[i])
  }

  function Wanted(t: C.RemuxTrack, file: seq<Byte>, track: Track, i: nat): Sample
    requires t.Valid(file) && i < |t.sizes|
  {
    var decode := Coalesce.Time(t, i);
    Sample(track.name, track.timescale, decode, decode + t.shifts[i], t.durations[i],
           (t.video ==> t.sync[i]) && (track.video ==> track.inspect(t.Bytes(file, i)) == Some(true)),
           t.Bytes(file, i))
  }

  function WantedFrom(t: C.RemuxTrack, file: seq<Byte>, track: Track, first: nat, count: nat): (r: seq<Sample>)
    requires t.Valid(file) && first + count <= |t.sizes|
    ensures |r| == count
  {
    seq(count, i requires 0 <= i < count => Wanted(t, file, track, first + i))
  }

  // ---- the bytes of the object

  function TrunPayload(t: C.RemuxTrack, file: seq<Byte>, first: nat, count: nat, offset: nat): (r: seq<Byte>)
    requires t.Valid(file) && first + count <= |t.sizes|
    ensures |r| == 12 + 16 * count
  {
    [1] + BE(3, 0x000F01) + (BE(4, count) + BE(4, offset) + C.Rows(t, file, first, count))
  }

  lemma {:induction false} RowAt(t: C.RemuxTrack, file: seq<Byte>, first: nat, count: nat, i: nat)
    requires t.Valid(file) && first + count <= |t.sizes| && i < count
    ensures C.Rows(t, file, first, count)[16 * i..16 * i + 16] == C.Row(t, file, first + i)
  {
    hide C.Row;
    var before := C.Rows(t, file, first, count - 1);
    if i < count - 1 {
      RowAt(t, file, first, count - 1, i);
      assert C.Rows(t, file, first, count)[..16 * (count - 1)] == before;
      SliceOfPrefix(C.Rows(t, file, first, count), 16 * (count - 1), 16 * i, 16 * i + 16);
    } else {
      assert C.Rows(t, file, first, count) == before + C.Row(t, file, first + i);
    }
  }

  lemma SliceOfPrefix<T>(s: seq<T>, k: nat, i: nat, j: nat)
    requires i <= j <= k <= |s|
    ensures s[..k][i..j] == s[i..j]
  {
  }

  /** The four fields of row `i`. */
  lemma RowFields(t: C.RemuxTrack, file: seq<Byte>, first: nat, count: nat, offset: nat, i: nat)
    requires t.Valid(file) && first + count <= |t.sizes| && i < count
    ensures var b, at := TrunPayload(t, file, first, count, offset), 12 + 16 * i;
      FromBE(b[at..at + 4]) == t.durations[first + i] && FromBE(b[at + 4..at + 8]) == t.sizes[first + i] &&
      FromBE(b[at + 8..at + 12]) == t.Flags(first + i) &&
      FromBE(b[at + 12..at + 16]) == Unsigned32(t.shifts[first + i])
  {
    hide BE, FromBE, C.Rows, C.Row;
    var b, at := TrunPayload(t, file, first, count, offset), 12 + 16 * i;
    var rows, row := C.Rows(t, file, first, count), C.Row(t, file, first + i);
    RowAt(t, file, first, count, i);
    assert b[12..] == rows;
    SliceOfDrop(b, 12, 16 * i, 16 * i + 16);
    assert b[at..at + 16] == row;
    RowParts(t, file, first + i);
    Quarters(b, at);
  }

  lemma SliceOfSlice<T>(s: seq<T>, lo: nat, hi: nat, i: nat, j: nat)
    requires lo <= hi <= |s| && i <= j <= hi - lo
    ensures s[lo..hi][i..j] == s[lo + i..lo + j]
  {
    assert s[lo..][..hi - lo] == s[lo..hi];
    SliceOfPrefix(s[lo..], hi - lo, i, j);
    SliceOfDrop(s, lo, i, j);
  }

  lemma Quarters(b: seq<Byte>, at: nat)
    requires at + 16 <= |b|
    ensures b[at..at + 16][..4] == b[at..at + 4] && b[at..at + 16][4..8] == b[at + 4..at + 8]
    ensures b[at..at + 16][8..12] == b[at + 8..at + 12] && b[at..at + 16][12..] == b[at + 12..at + 16]
  {
    SliceOfSlice(b, at, at + 16, 0, 4);
    SliceOfSlice(b, at, at + 16, 4, 8);
    SliceOfSlice(b, at, at + 16, 8, 12);
    SliceOfSlice(b, at, at + 16, 12, 16);
    assert b[at..at + 16][12..16] == b[at..at + 16][12..] && b[at..at + 16][0..4] == b[at..at + 16][..4];
  }

  lemma RowParts(t: C.RemuxTrack, file: seq<Byte>, i: nat)
    requires t.Valid(file) && i < |t.sizes|
    ensures var row := C.Row(t, file, i);
      FromBE(row[..4]) == t.durations[i] && FromBE(row[4..8]) == t.sizes[i] && FromBE(row[8..12]) == t.Flags(i) &&
      FromBE(row[12..]) == Unsigned32(t.shifts[i])
  {
    hide BE, FromBE;
    var row := C.Row(t, file, i);
    Pow256Values();
    ReadBackBE(4, t.durations[i]);
    ReadBackBE(4, t.sizes[i]);
    ReadBackBE(4, t.Flags(i));
    ReadBackBE(4, Unsigned32(t.shifts[i]));
    assert row[..4] == BE(4, t.durations[i]) && row[4..8] == BE(4, t.sizes[i]);
    assert row[8..12] == BE(4, t.Flags(i)) && row[12..] == BE(4, Unsigned32(t.shifts[i]));
  }

  lemma SignedBack(v: int)
    requires -0x8000_0000 <= v < 0x8000_0000
    ensures Signed32(Unsigned32(v)) == v
  {
  }

  /** The flags the segmenter writes mean what it was told. */
  lemma FlagsMean(t: C.RemuxTrack, i: nat)
    requires i < |t.sync|
    ensures SyncFlag(t.video, t.Flags(i)) <==> (t.video ==> t.sync[i])
  {
    Powers();
  }

  lemma Powers()
    ensures Pow2(8) == 0x100 && Pow2(16) == 0x1_0000 && Pow2(17) == 0x2_0000
  {
    assert Pow2(12) == 16 * Pow2(8) == 0x1000;
    assert Pow2(16) == 16 * Pow2(12);
  }

  lemma TrunBits()
    ensures OnlyBits(0x000F01, TrunFlags)
    ensures HasBit(0x000F01, 0) && !HasBit(0x000F01, 2)
    ensures HasBit(0x000F01, 8) && HasBit(0x000F01, 9) && HasBit(0x000F01, 10) && HasBit(0x000F01, 11)
  {
    assert Pow2(8) == 256 && Pow2(9) == 512 && Pow2(10) == 1024 && Pow2(11) == 2048;
  }

  lemma TfhdBits()
    ensures HasBit(0x020000, 17)
    ensures !HasBit(0x020000, 0) && !HasBit(0x020000, 1) && !HasBit(0x020000, 3) && !HasBit(0x020000, 4)
    ensures !HasBit(0x020000, 5) && !HasBit(0x020000, 16)
  {
    Powers();
  }

  lemma TfhdMask()
    ensures OnlyBits(0x020000, TfhdFlags)
  {
    assert OnlyBits(0x40, 0x60);
    assert OnlyBits(0x1000, 0x1801);
  }

  // ---- one object

  /** Samples the reader accepts from this object, after those it already has. */
  predicate Fits(t: C.RemuxTrack, file: seq<Byte>, track: Track, first: nat, count: nat)
  {
    && t.Valid(file) && first + count <= |t.sizes| && track.video == t.video
    && (forall i | first <= i < first + count :: Readable(t, file, track, i))
    && count <= MaxSamples
    && C.MoofSize(count, Coalesce.Time(t, first)) + 8 + |C.Media(t, file, first, count)| <= MaxSampleBytes
  }

  function MoofBytes(t: C.RemuxTrack, file: seq<Byte>, first: nat, count: nat, id: nat): (r: seq<Byte>)
    requires t.Valid(file) && first + count <= |t.sizes|
    ensures |r| == C.MoofSize(count, Coalesce.Time(t, first))
  {
    C.Moof(t, file, first, count, Coalesce.Time(t, first), id, C.MoofSize(count, Coalesce.Time(t, first)) + 8)
  }

  function MdatBytes(t: C.RemuxTrack, file: seq<Byte>, first: nat, count: nat): (r: seq<Byte>)
    requires t.Valid(file) && first + count <= |t.sizes|
    ensures |r| == 8 + |C.Media(t, file, first, count)|
  {
    Box("mdat", C.Media(t, file, first, count))
  }

  /** The object as the reader sees it: its bytes, and where its media is. */
  function ObjectFile(t: C.RemuxTrack, file: seq<Byte>, first: nat, count: nat, id: nat): File
    requires t.Valid(file) && first + count <= |t.sizes|
  {
    File(MoofBytes(t, file, first, count, id) + MdatBytes(t, file, first, count),
         [(|MoofBytes(t, file, first, count, id)| + 8, |C.Media(t, file, first, count)|)])
  }

  function ReadSoFar(t: C.RemuxTrack, file: seq<Byte>, track: Track, first: nat, i: nat): Read
    requires t.Valid(file) && first + i <= |t.sizes|
  {
    Read(WantedFrom(t, file, track, first, i), |C.Media(t, file, first, i)|)
  }

  lemma {:induction false} MediaParts(t: C.RemuxTrack, file: seq<Byte>, first: nat, count: nat, i: nat)
    requires t.Valid(file) && first + count <= |t.sizes| && i < count
    ensures var at, size := |C.Media(t, file, first, i)|, t.sizes[first + i];
      at + size <= |C.Media(t, file, first, count)| &&
      C.Media(t, file, first, count)[at..at + size] == t.Bytes(file, first + i)
  {
    var at, size := |C.Media(t, file, first, i)|, t.sizes[first + i];
    var media, before := C.Media(t, file, first, count), C.Media(t, file, first, count - 1);
    if i < count - 1 {
      MediaParts(t, file, first, count - 1, i);
      assert media[..|before|] == before;
      SliceOfPrefix(media, |before|, at, at + size);
    } else {
      assert media == before + t.Bytes(file, first + i);
    }
  }

  /** Sample `i` is where the reader looks for it. */
  lemma SampleInObject(t: C.RemuxTrack, file: seq<Byte>, first: nat, count: nat, id: nat, i: nat)
    requires t.Valid(file) && first + count <= |t.sizes| && i < count
    ensures var f, at := ObjectFile(t, file, first, count, id),
                         |MoofBytes(t, file, first, count, id)| + 8 + |C.Media(t, file, first, i)|;
      f.Holds(at, t.sizes[first + i]) && at + t.sizes[first + i] <= |f.bytes| &&
      f.bytes[at..at + t.sizes[first + i]] == t.Bytes(file, first + i)
  {
    hide C.Media, C.Moof, BE;
    MediaParts(t, file, first, count, i);
    var moof, media := MoofBytes(t, file, first, count, id), C.Media(t, file, first, count);
    var f, head := ObjectFile(t, file, first, count, id), BE(4, 8 + |media|) + Ascii("mdat");
    assert f.bytes == moof + head + media;
    assert f.bytes[|moof| + 8..] == media;
    var at := |C.Media(t, file, first, i)|;
    SliceOfDrop(f.bytes, |moof| + 8, at, at + t.sizes[first + i]);
    assert f.media[0] == (|moof| + 8, |media|);
  }

  function RunHead(t: C.RemuxTrack, track: Track, defaults: Defaults): Head {
    Head(FragmentTrack(t.id, track, true, defaults), defaults, 0, false)
  }

  function PlaceAt(t: C.RemuxTrack, file: seq<Byte>, track: Track, first: nat, count: nat, i: nat): Place
    requires t.Valid(file) && first + count <= |t.sizes| && i <= count
  {
    Place(12 + 16 * i,
          C.MoofSize(count, Coalesce.Time(t, first)) + 8 + |C.Media(t, file, first, i)|,
          Coalesce.Time(t, first + i), ReadSoFar(t, file, track, first, i))
  }

  lemma SoFarStep(t: C.RemuxTrack, file: seq<Byte>, track: Track, first: nat, i: nat)
    requires t.Valid(file) && first + i < |t.sizes|
    ensures ReadSoFar(t, file, track, first, i + 1) ==
      Read(ReadSoFar(t, file, track, first, i).values + [Wanted(t, file, track, first + i)],
           ReadSoFar(t, file, track, first, i).byteCount + t.sizes[first + i])
  {
    hide Wanted;
  }

  lemma {:induction false} MediaGrows(t: C.RemuxTrack, file: seq<Byte>, first: nat, i: nat, count: nat)
    requires t.Valid(file) && first + count <= |t.sizes| && i <= count
    ensures |C.Media(t, file, first, i)| <= |C.Media(t, file, first, count)|
  {
    if i < count {
      MediaGrows(t, file, first, i, count - 1);
    }
  }

  lemma PushedIs(acc: Read, track: Track, f: File, at: nat, size: nat, decode: nat, shift: int, duration: nat,
                 sync: bool, data: seq<Byte>)
    requires f.Parsed() && |acc.values| < MaxSamples && acc.byteCount + size <= MaxSampleBytes
    requires size > 0 && duration > 0 && Presentable(decode, shift) && f.Holds(at, size) && at + size <= |f.bytes|
    requires f.bytes[at..at + size] == data && (track.video ==> track.inspect(data).Some?)
    ensures Pushed(acc, track, f, at, size, decode, shift, duration, sync) ==
      Some(Read(acc.values + [Sample(track.name, track.timescale, decode, decode + shift, duration,
                                     sync && (track.video ==> track.inspect(data) == Some(true)), data)],
                acc.byteCount + size))
  {
    hide f.Holds;
  }

  lemma SoFarSizes(t: C.RemuxTrack, file: seq<Byte>, track: Track, first: nat, count: nat, i: nat)
    requires Fits(t, file, track, first, count) && i < count
    ensures var acc := ReadSoFar(t, file, track, first, i);
      |acc.values| < MaxSamples && acc.byteCount + t.sizes[first + i] <= MaxSampleBytes
  {
    hide Readable;
    NextMedia(t, file, first, i);
    MediaGrows(t, file, first, i + 1, count);
  }

  /** The reader takes sample `i` of the object for what it was. */
  lemma PushBack(t: C.RemuxTrack, file: seq<Byte>, track: Track, first: nat, count: nat, id: nat, i: nat)
    requires Fits(t, file, track, first, count) && i < count
    requires ObjectFile(t, file, first, count, id).Parsed()
    ensures var p := PlaceAt(t, file, track, first, count, i);
      Pushed(p.acc, track, ObjectFile(t, file, first, count, id), p.cursor, t.sizes[first + i], p.decode,
             t.shifts[first + i], t.durations[first + i], t.video ==> t.sync[first + i]) ==
      Some(ReadSoFar(t, file, track, first, i + 1))
  {
    hide C.Media, ObjectFile, Coalesce.Time, ReadSoFar, Pushed, Presentable, C.MoofSize, C.Moof;
    var p := PlaceAt(t, file, track, first, count, i);
    SampleInObject(t, file, first, count, id, i);
    SoFarStep(t, file, track, first, i);
    SoFarSizes(t, file, track, first, count, i);
    assert Readable(t, file, track, first + i);
    PushedIs(p.acc, track, ObjectFile(t, file, first, count, id), p.cursor, t.sizes[first + i], p.decode,
             t.shifts[first + i], t.durations[first + i], t.video ==> t.sync[first + i], t.Bytes(file, first + i));
  }

  lemma RowBack(t: C.RemuxTrack, file: seq<Byte>, track: Track, defaults: Defaults, first: nat, count: nat, id: nat,
                i: nat, sampleFlags: nat)
    requires Fits(t, file, track, first, count) && i < count
    requires ObjectFile(t, file, first, count, id).Parsed()
    ensures var b := TrunPayload(t, file, first, count, C.MoofSize(count, Coalesce.Time(t, first)) + 8);
      RowOf(b, RunHead(t, track, defaults), ObjectFile(t, file, first, count, id), 0x000F01, true, sampleFlags,
            PlaceAt(t, file, track, first, count, i)) ==
      Some(PlaceAt(t, file, track, first, count, i + 1))
  {
    hide C.Media, ObjectFile, Coalesce.Time, TrunPayload, HasBit, FromBE, Pushed, ReadSoFar, SyncFlag, Signed32,
         Unsigned32;
    var offset := C.MoofSize(count, Coalesce.Time(t, first)) + 8;
    TrunBits();
    RowFields(t, file, first, count, offset, i);
    SignedBack(t.shifts[first + i]);
    FlagsMean(t, first + i);
    PushBack(t, file, track, first, count, id, i);
    Coalesce.TimeStep(t, first + i);
    TimeBound(t, file, track, first + i);
    NextMedia(t, file, first, i);
  }

  lemma TimeBound(t: C.RemuxTrack, file: seq<Byte>, track: Track, i: nat)
    requires t.Valid(file) && i < |t.sizes| && Readable(t, file, track, i)
    ensures Coalesce.Time(t, i) + t.durations[i] <= MaxU64
  {
  }

  lemma NextMedia(t: C.RemuxTrack, file: seq<Byte>, first: nat, i: nat)
    requires t.Valid(file) && first + i < |t.sizes|
    ensures |C.Media(t, file, first, i + 1)| == |C.Media(t, file, first, i)| + t.sizes[first + i]
  {
  }

  lemma {:induction false} RowsBack(t: C.RemuxTrack, file: seq<Byte>, track: Track, defaults: Defaults, first: nat,
                                    count: nat, id: nat, i: nat, firstFlags: nat)
    requires Fits(t, file, track, first, count) && i <= count
    requires ObjectFile(t, file, first, count, id).Parsed()
    ensures var b := TrunPayload(t, file, first, count, C.MoofSize(count, Coalesce.Time(t, first)) + 8);
      RowsOf(b, RunHead(t, track, defaults), ObjectFile(t, file, first, count, id), 0x000F01, true, firstFlags, i,
             count, PlaceAt(t, file, track, first, count, i)) ==
      Some(PlaceAt(t, file, track, first, count, count))
    decreases count - i
  {
    hide C.Media, ObjectFile, Coalesce.Time, TrunPayload, RowOf, PlaceAt, Fits;
    if i < count {
      RowBack(t, file, track, defaults, first, count, id, i, if i == 0 then firstFlags else defaults.flags);
      RowsBack(t, file, track, defaults, first, count, id, i + 1, firstFlags);
    }
  }

  lemma TrunHeader(t: C.RemuxTrack, file: seq<Byte>, first: nat, count: nat, offset: nat)
    requires t.Valid(file) && first + count <= |t.sizes| && count <= MaxU32 && offset <= MaxU32
    ensures var b := TrunPayload(t, file, first, count, offset);
      b[0] == 1 && FromBE(b[1..4]) == 0x000F01 && FromBE(b[4..8]) == count && FromBE(b[8..12]) == offset
  {
    hide BE, FromBE, C.Rows;
    var b := TrunPayload(t, file, first, count, offset);
    Pow256Values();
    ReadBackBE(3, 0x000F01);
    ReadBackBE(4, count);
    ReadBackBE(4, offset);
    assert b[1..4] == BE(3, 0x000F01) && b[4..8] == BE(4, count) && b[8..12] == BE(4, offset);
  }

  lemma RunBack(t: C.RemuxTrack, file: seq<Byte>, track: Track, defaults: Defaults, first: nat, count: nat, id: nat)
    requires Fits(t, file, track, first, count)
    requires ObjectFile(t, file, first, count, id).Parsed()
    ensures var b := TrunPayload(t, file, first, count, C.MoofSize(count, Coalesce.Time(t, first)) + 8);
      RunOf(b, RunHead(t, track, defaults), ObjectFile(t, file, first, count, id), 0, Coalesce.Time(t, first),
            Read([], 0)) ==
      Some(PlaceAt(t, file, track, first, count, count))
  {
    hide ObjectFile, Coalesce.Time, TrunPayload, RowsOf, FromBE, OnlyBits, HasBit, Readable;
    var offset := C.MoofSize(count, Coalesce.Time(t, first)) + 8;
    TrunHeader(t, file, first, count, offset);
    TrunBits();
    NothingYet(t, file, track, first);
    RowsBack(t, file, track, defaults, first, count, id, 0, defaults.flags);
  }

  lemma NothingYet(t: C.RemuxTrack, file: seq<Byte>, track: Track, first: nat)
    requires t.Valid(file) && first <= |t.sizes|
    ensures ReadSoFar(t, file, track, first, 0) == Read([], 0) && |C.Media(t, file, first, 0)| == 0
  {
  }

  lemma HeadBack(t: C.RemuxTrack, track: Track, defaults: Defaults)
    requires t.id <= MaxU32
    ensures HeadOf(Payload(Node("tfhd", 8, C.Tfhd(t.id), [])), [RunHead(t, track, defaults).track], 0, 0, true) ==
      Some(RunHead(t, track, defaults))
  {
    hide HasBit, OnlyBits, FromBE, BE;
    var b := Payload(Node("tfhd", 8, C.Tfhd(t.id), []));
    Pow256Values();
    ReadBackBE(3, 0x020000);
    ReadBackBE(4, t.id);
    assert b == [0] + BE(3, 0x020000) + BE(4, t.id);
    assert b[1..4] == BE(3, 0x020000) && b[4..8] == BE(4, t.id);
    TfhdBits();
    TfhdMask();
  }

  lemma TimeBack(time: nat)
    requires time <= MaxU64
    ensures TimeOf(Payload(Node("tfdt", 8, C.Tfdt(time), []))) == Some(time)
  {
    hide FromBE, BE;
    var b := Payload(Node("tfdt", 8, C.Tfdt(time), []));
    var wide := time > MaxU32;
    Pow256Values();
    ReadBackBE(3, 0);
    ReadBackBE(if wide then 8 else 4, time);
    assert b == [if wide then 1 else 0] + BE(3, 0) + BE(if wide then 8 else 4, time);
    assert b[1..4] == BE(3, 0) && b[4..] == BE(if wide then 8 else 4, time);
  }

  lemma TrafBack(t: C.RemuxTrack, file: seq<Byte>, track: Track, defaults: Defaults, first: nat, count: nat, id: nat)
    requires Fits(t, file, track, first, count) && count > 0
    requires ObjectFile(t, file, first, count, id).Parsed()
    ensures TrafOf(C.TrafNode(t, file, first, count, Coalesce.Time(t, first)), 0, 0,
                   ObjectFile(t, file, first, count, id), [RunHead(t, track, defaults).track], true, Read([], 0)) ==
      Some((PlaceAt(t, file, track, first, count, count).cursor, ReadSoFar(t, file, track, first, count)))
  {
    hide ObjectFile, Coalesce.Time, HeadOf, TimeOf, RunOf, Readable, RunsOf, Grouped, Find, C.Tfhd, C.Tfdt, ReadSoFar, BE, C.Rows, C.Media;
    var base := Coalesce.Time(t, first);
    var offset := C.MoofSize(count, base) + 8;
    HeadBack(t, track, defaults);
    FirstTime(t, file, track, first, count);
    TimeBack(base);
    RunBack(t, file, track, defaults, first, count, id);
    var kids := C.TrafNode(t, file, first, count, base).kids;
    assert Payload(kids[2]) == TrunPayload(t, file, first, count, offset);
    RunsAre(kids, RunHead(t, track, defaults), ObjectFile(t, file, first, count, id), base);
  }

  lemma FirstTime(t: C.RemuxTrack, file: seq<Byte>, track: Track, first: nat, count: nat)
    requires Fits(t, file, track, first, count) && count > 0
    ensures Coalesce.Time(t, first) <= MaxU64 && t.id <= MaxU32
  {
    hide Coalesce.Time;
    assert Readable(t, file, track, first);
  }

  /** Only the third box of the traf is a run. */
  lemma RunsAre(kids: seq<Node>, head: Head, f: File, decode: nat)
    requires f.Parsed() && |kids| == 3 && kids[0].name == "tfhd" && kids[1].name == "tfdt" && kids[2].name == "trun"
    ensures !Grouped(kids)
    ensures Find(kids, "tfhd") == Some(kids[0]) && Find(kids, "tfdt") == Some(kids[1])
    ensures Find(kids, "trun") == Some(kids[2])
    ensures var end := RunOf(Payload(kids[2]), head, f, 0, decode, Read([], 0));
      RunsOf(kids, head, f, 0, decode, Read([], 0)) ==
      if end.None? then None else Some((end.value.cursor, end.value.acc))
  {
    hide RunOf;
    var run, acc := [kids[2]], Read([], 0);
    assert kids[1..] == [kids[1]] + run && kids[1..][1..] == run && run[1..] == [];
    assert Find(run, "trun") == Some(kids[2]) && Find(kids[1..], "trun") == Find(run, "trun");
    assert RunsOf(kids[1..], head, f, 0, decode, acc) == RunsOf(run, head, f, 0, decode, acc);
    var end := RunOf(Payload(kids[2]), head, f, 0, decode, acc);
    if end.Some? {
      assert RunsOf(run[1..], head, f, end.value.cursor, end.value.decode, end.value.acc) ==
             Some((end.value.cursor, end.value.acc));
    }
  }

  lemma MoofBack(t: C.RemuxTrack, file: seq<Byte>, track: Track, defaults: Defaults, first: nat, count: nat, id: nat)
    requires Fits(t, file, track, first, count) && count > 0
    requires ObjectFile(t, file, first, count, id).Parsed()
    ensures FragmentOf(C.MoofNode(t, file, first, count, Coalesce.Time(t, first), id), 0,
                       ObjectFile(t, file, first, count, id), [RunHead(t, track, defaults).track], true, Read([], 0)) ==
      Some(ReadSoFar(t, file, track, first, count))
  {
    hide ObjectFile, Coalesce.Time, TrafOf, TrafsOf, Readable, C.TrafNode, ReadSoFar, C.Media;
    TrafBack(t, file, track, defaults, first, count, id);
    var kids := C.MoofNode(t, file, first, count, Coalesce.Time(t, first), id).kids;
    TrafNamed(t, file, first, count, Coalesce.Time(t, first));
    TrafsAre(kids, ObjectFile(t, file, first, count, id), [RunHead(t, track, defaults).track]);
  }

  /** Only the second box of the moof is a traf. */
  lemma TrafsAre(kids: seq<Node>, f: File, tracks: seq<FragmentTrack>)
    requires f.Parsed() && |kids| == 2 && kids[0].name == "mfhd" && kids[1].name == "traf"
    ensures TrafsOf(kids, 0, 0, f, tracks, true, Read([], 0)) == TrafOf(kids[1], 0, 0, f, tracks, true, Read([], 0))
  {
    hide TrafOf;
    var one := [kids[1]];
    assert kids[1..] == one && one[1..] == [];
    var end := TrafOf(kids[1], 0, 0, f, tracks, true, Read([], 0));
    if end.Some? {
      assert TrafsOf(one[1..], 0, end.value.0, f, tracks, true, end.value.1) == Some((end.value.0, end.value.1));
    }
    assert TrafsOf(one, 0, 0, f, tracks, true, Read([], 0)) == end;
  }

  lemma TrafNamed(t: C.RemuxTrack, file: seq<Byte>, first: nat, count: nat, base: nat)
    requires t.Valid(file) && first + count <= |t.sizes|
    ensures C.TrafNode(t, file, first, count, base).name == "traf"
  {
  }

  /** The strict reader gets the samples of an object back, exactly as they were. */
  lemma ObjectReadsBack(t: C.RemuxTrack, file: seq<Byte>, track: Track, defaults: Defaults, first: nat, count: nat,
                        id: nat)
    requires Fits(t, file, track, first, count) && count > 0
    ensures C.ObjectBytes(t, file, first, count, Coalesce.Time(t, first), id) ==
      MoofBytes(t, file, first, count, id) + MdatBytes(t, file, first, count)
    ensures FragmentSamples(MoofBytes(t, file, first, count, id), MdatBytes(t, file, first, count),
                            [FragmentTrack(t.id, track, true, defaults)]) ==
      Some(WantedFrom(t, file, track, first, count))
  {
    hide Parse, FragmentOf, Coalesce.Time, Readable, C.Media, C.Moof, WantedFrom, BE;
    var base := Coalesce.Time(t, first);
    C.ObjectParses(t, file, first, count, base, id);
    var moof, mdat := MoofBytes(t, file, first, count, id), MdatBytes(t, file, first, count);
    var second := Node("mdat", 8, mdat, []);
    PairParsed(moof, mdat, C.MoofNode(t, file, first, count, base, id), second);
    assert PairFile(moof, mdat, second) == ObjectFile(t, file, first, count, id);
    MoofBack(t, file, track, defaults, first, count, id);
  }

  // ---- the whole track

  function ReadPiece(t: C.RemuxTrack, file: seq<Byte>, track: Track, defaults: Defaults, id: nat,
                     p: Coalesce.Piece): Option<seq<Sample>>
    requires t.Valid(file) && p.first + p.count <= |t.sizes|
  {
    FragmentSamples(MoofBytes(t, file, p.first, p.count, id), MdatBytes(t, file, p.first, p.count),
                    [FragmentTrack(t.id, track, true, defaults)])
  }

  /** What reading some objects in turn gives, numbered from `id`. */
  function ReadPieces(t: C.RemuxTrack, file: seq<Byte>, track: Track, defaults: Defaults, id: nat,
                      pieces: seq<Coalesce.Piece>): Option<seq<Sample>>
    requires t.Valid(file) && Coalesce.Within(pieces, |t.sizes|)
    decreases |pieces|
  {
    if pieces == [] then Some([])
    else
      var head := ReadPiece(t, file, track, defaults, id, pieces[0]);
      var tail := ReadPieces(t, file, track, defaults, id + 1, pieces[1..]);
      if head.None? || tail.None? then None else Some(head.value + tail.value)
  }

  predicate SmallObjects(t: C.RemuxTrack, file: seq<Byte>, pieces: seq<Coalesce.Piece>)
    requires t.Valid(file) && Coalesce.Within(pieces, |t.sizes|)
  {
    forall k | 0 <= k < |pieces| ::
      |MoofBytes(t, file, pieces[k].first, pieces[k].count, 0)| + |MdatBytes(t, file, pieces[k].first, pieces[k].count)|
      <= MaxSampleBytes
  }

  lemma {:induction false} PiecesReadBack(t: C.RemuxTrack, file: seq<Byte>, track: Track, defaults: Defaults, id: nat,
                                          pieces: seq<Coalesce.Piece>, from: nat)
    requires t.Valid(file) && track.video == t.video && from <= |t.sizes|
    requires forall i | 0 <= i < |t.sizes| :: Readable(t, file, track, i)
    requires Coalesce.Tiles(pieces, from, |t.sizes|) && Coalesce.Within(pieces, |t.sizes|)
    requires SmallObjects(t, file, pieces)
    ensures ReadPieces(t, file, track, defaults, id, pieces) ==
      Some(WantedFrom(t, file, track, from, |t.sizes| - from))
    decreases |pieces|
  {
    hide FragmentSamples, Readable, Wanted, C.Media, C.Moof, Coalesce.Time, MdatBytes;
    if pieces != [] {
      var p := pieces[0];
      Coalesce.TilesWithin(pieces[1..], from + p.count, |t.sizes|);
      assert forall k | 0 < k < |pieces| :: pieces[k] == pieces[1..][k - 1];
      PiecesReadBack(t, file, track, defaults, id + 1, pieces[1..], from + p.count);
      FitsPiece(t, file, track, pieces);
      ObjectReadsBack(t, file, track, defaults, p.first, p.count, id);
      assert WantedFrom(t, file, track, from, |t.sizes| - from) ==
             WantedFrom(t, file, track, from, p.count) +
             WantedFrom(t, file, track, from + p.count, |t.sizes| - from - p.count);
    }
  }

  lemma FitsPiece(t: C.RemuxTrack, file: seq<Byte>, track: Track, pieces: seq<Coalesce.Piece>)
    requires t.Valid(file) && track.video == t.video && pieces != [] && pieces[0].count <= 120
    requires forall i | 0 <= i < |t.sizes| :: Readable(t, file, track, i)
    requires Coalesce.Within(pieces, |t.sizes|) && SmallObjects(t, file, pieces)
    ensures Fits(t, file, track, pieces[0].first, pieces[0].count)
  {
    hide Readable, C.Media, C.Moof, Coalesce.Time;
    assert |MoofBytes(t, file, pieces[0].first, pieces[0].count, 0)| +
           |MdatBytes(t, file, pieces[0].first, pieces[0].count)| <= MaxSampleBytes;
  }

  /** The remux tables of a track that both readers read alike. */
  predicate SameTrack(t: C.RemuxTrack, tables: Tables, track: Track)
    requires tables.Matched()
  {
    && t.sizes == tables.sizes && t.durations == tables.durations && t.shifts == tables.shifts
    && t.sync == tables.sync && |t.offsets| == |t.sizes| && track.video == t.video
    && (!t.video ==> forall i | 0 <= i < |t.sync| :: t.sync[i])
    && forall i: nat | i < |t.sizes| :: tables.chunks != [] && t.offsets[i] == OffsetOf(tables, i)
  }

  lemma WantedIsExpanded(t: C.RemuxTrack, tables: Tables, track: Track, file: File, held: nat, i: nat)
    requires file.Parsed() && tables.Matched() && Accepted(track, file, tables, held)
    requires SameTrack(t, tables, track) && t.Valid(file.bytes) && i < |t.sizes|
    ensures Readable(t, file.bytes, track, i)
    ensures Wanted(t, file.bytes, track, i) == SampleAt(track, file, tables, i)
  {
    hide OffsetOf, Before;
    assert SampleSound(track, file, tables, i);
    assert t.offsets[i] == OffsetOf(tables, i);
    assert t.Bytes(file.bytes, i) == file.bytes[OffsetOf(tables, i)..OffsetOf(tables, i) + tables.sizes[i]];
    assert Coalesce.Time(t, i) == DecodeTime(tables, i);
  }

  /**
   * The coalesced objects of a track the LOC path accepts, read one after the other
   * by the strict fragment reader, give the very samples the LOC path reads from the
   * progressive file.
   */
  lemma CoalescingIsLossless(t: C.RemuxTrack, tables: Tables, track: Track, file: File, held: nat, defaults: Defaults,
                             videoStarts: seq<nat>)
    requires file.Parsed() && tables.Matched() && Accepted(track, file, tables, held)
    requires SameTrack(t, tables, track) && t.Valid(file.bytes)
    requires SmallObjects(t, file.bytes, Coalesce.TrackPieces(t, videoStarts))
    ensures ReadPieces(t, file.bytes, track, defaults, 0, Coalesce.TrackPieces(t, videoStarts)) ==
      Some(Expanded(track, file, tables, |tables.sizes|))
  {
    hide Readable, Wanted, SampleAt, SampleSound, OffsetOf, Coalesce.TrackPieces, Coalesce.Tiles, ReadPieces,
         SmallObjects, Sum, Before, Coalesce.Within;
    forall i | 0 <= i < |t.sizes|
      ensures Readable(t, file.bytes, track, i)
      ensures Wanted(t, file.bytes, track, i) == SampleAt(track, file, tables, i)
    {
      WantedIsExpanded(t, tables, track, file, held, i);
    }
    PiecesReadBack(t, file.bytes, track, defaults, 0, Coalesce.TrackPieces(t, videoStarts), 0);
    assert WantedFrom(t, file.bytes, track, 0, |t.sizes|) == Expanded(track, file, tables, |tables.sizes|);
  }
}
