/**
 * The CMAF object of a range of samples of a progressive track: one moof with one
 * trun, and one mdat with the samples' bytes.
 */
module CmafObject {
  import opened Bytes
  import opened Mp4Boxes
  import opened BoxWriter
  import opened SampleTables

  datatype RemuxTrack = RemuxTrack(id: nat, video: bool, timescale: nat, sizes: seq<nat>, durations: seq<nat>,
                                   shifts: seq<int>, sync: seq<bool>, offsets: seq<nat>)
  {
    /** One entry per sample in every table, in the widths the tables have, and samples that lie in the file. */
    predicate Valid(file: seq<Byte>) {
      && id <= MaxU32
      && |durations| == |sizes| && |shifts| == |sizes| && |sync| == |sizes| && |offsets| == |sizes|
      && forall i | 0 <= i < |sizes| :: durations[i] <= MaxU32 && sizes[i] <= MaxU32 &&
           -0x8000_0000 <= shifts[i] < 0x8000_0000 && offsets[i] + sizes[i] <= |file|
    }

    function Flags(i: nat): nat
      requires i < |sync|
    {
      if video && !sync[i] then 0x01010000 else 0x02000000
    }

    function Bytes(file: seq<Byte>, i: nat): seq<Byte>
      requires Valid(file) && i < |sizes|
    {
      file[offsets[i]..offsets[i] + sizes[i]]
    }
  }

  /** One trun entry: duration, size, flags and composition offset. */
  function Row(t: RemuxTrack, file: seq<Byte>, i: nat): (r: seq<Byte>)
    requires t.Valid(file) && i < |t.sizes|
    ensures |r| == 16
  {
    BE(4, t.durations[i]) + BE(4, t.sizes[i]) + BE(4, t.Flags(i)) + BE(4, Unsigned32(t.shifts[i]))
  }

  function Rows(t: RemuxTrack, file: seq<Byte>, first: nat, count: nat): (r: seq<Byte>)
    requires t.Valid(file) && first + count <= |t.sizes|
    ensures |r| == 16 * count
  {
    if count == 0 then [] else Rows(t, file, first, count - 1) + Row(t, file, first + count - 1)
  }

  /** The bytes of consecutive samples, one after the other. */
  function Media(t: RemuxTrack, file: seq<Byte>, first: nat, count: nat): seq<Byte>
    requires t.Valid(file) && first + count <= |t.sizes|
  {
    if count == 0 then [] else Media(t, file, first, count - 1) + t.Bytes(file, first + count - 1)
  }

  function Trun(t: RemuxTrack, file: seq<Byte>, first: nat, count: nat, dataOffset: nat): (r: seq<Byte>)
    requires t.Valid(file) && first + count <= |t.sizes|
    ensures |r| == 20 + 16 * count
  {
    FullBox("trun", 1, 0x000F01, BE(4, count) + BE(4, dataOffset) + Rows(t, file, first, count))
  }

  /** Version 0 while the time fits 32 bits. */
  function Tfdt(time: nat): (r: seq<Byte>)
    ensures |r| == if time > MaxU32 then 20 else 16
  {
    if time > MaxU32 then FullBox("tfdt", 1, 0, BE(8, time)) else FullBox("tfdt", 0, 0, BE(4, time))
  }

  function Mfhd(sequence: nat): (r: seq<Byte>)
    ensures |r| == 16
  {
    FullBox("mfhd", 0, 0, BE(4, sequence + 1))
  }

  function Tfhd(id: nat): (r: seq<Byte>)
    ensures |r| == 16
  {
    FullBox("tfhd", 0, 0x020000, BE(4, id))
  }

  function MoofSize(count: nat, base: nat): nat {
    84 + (if base > MaxU32 then 4 else 0) + 16 * count
  }

  function Moof(t: RemuxTrack, file: seq<Byte>, first: nat, count: nat, base: nat, sequence: nat,
                dataOffset: nat): (r: seq<Byte>)
    requires t.Valid(file) && first + count <= |t.sizes|
    ensures |r| == MoofSize(count, base)
  {
    Box("moof", Mfhd(sequence) + Box("traf", Tfhd(t.id) + Tfdt(base) + Trun(t, file, first, count, dataOffset)))
  }

  /** The whole object; the trun points at the first byte of the mdat payload. */
  function ObjectBytes(t: RemuxTrack, file: seq<Byte>, first: nat, count: nat, base: nat, sequence: nat): seq<Byte>
    requires t.Valid(file) && first + count <= |t.sizes|
  {
    Moof(t, file, first, count, base, sequence, MoofSize(count, base) + 8) + Box("mdat", Media(t, file, first, count))
  }

  // ---- the builders

  method BuildTrunRangeBox(t: RemuxTrack, file: seq<Byte>, first: nat, count: nat, dataOffset: nat)
    returns (trun: seq<Byte>)
    requires t.Valid(file) && first + count <= |t.sizes|
    ensures trun == Trun(t, file, first, count, dataOffset)
  {
    hide BE;
    var payload := BE(4, count) + BE(4, dataOffset);
    ghost var head := payload;
    for k := 0 to count
      invariant payload == head + Rows(t, file, first, k)
    {
      var index := first + k;
      var row := BE(4, t.durations[index]) + BE(4, t.sizes[index]) + BE(4, t.Flags(index)) +
                 BE(4, Unsigned32(t.shifts[index]));
      assert head + (Rows(t, file, first, k) + row) == head + Rows(t, file, first, k) + row;
      payload := payload + row;
    }
    return FullBox("trun", 1, 0x000F01, payload);
  }

  method BuildRemuxedFragmentRange(t: RemuxTrack, file: seq<Byte>, first: nat, count: nat, base: nat, sequence: nat)
    returns (object_: seq<Byte>)
    requires t.Valid(file) && first + count <= |t.sizes|
    ensures object_ == ObjectBytes(t, file, first, count, base, sequence)
  {
    hide BE, FullBox, Trun, Tfdt, Mfhd, Tfhd;
    var media: seq<Byte> := [];
    for k := 0 to count
      invariant media == Media(t, file, first, k)
    {
      media := media + file[t.offsets[first + k]..t.offsets[first + k] + t.sizes[first + k]];
    }
    var mfhd, tfhd, tfdt := Mfhd(sequence), Tfhd(t.id), Tfdt(base);
    var placeholder := BuildTrunRangeBox(t, file, first, count, 0);
    var dataOffset := |Box("moof", mfhd + Box("traf", tfhd + tfdt + placeholder))| + 8;
    var trun := BuildTrunRangeBox(t, file, first, count, dataOffset);
    return Box("moof", mfhd + Box("traf", tfhd + tfdt + trun)) + Box("mdat", media);
  }

  // ---- what the parser makes of an object

  function TrunNode(t: RemuxTrack, file: seq<Byte>, first: nat, count: nat, base: nat): Node
    requires t.Valid(file) && first + count <= |t.sizes|
  {
    Node("trun", 8, Trun(t, file, first, count, MoofSize(count, base) + 8), [])
  }

  function TrafNode(t: RemuxTrack, file: seq<Byte>, first: nat, count: nat, base: nat): Node
    requires t.Valid(file) && first + count <= |t.sizes|
  {
    Node("traf", 8, Box("traf", Tfhd(t.id) + Tfdt(base) + Trun(t, file, first, count, MoofSize(count, base) + 8)),
         [Node("tfhd", 8, Tfhd(t.id), []), Node("tfdt", 8, Tfdt(base), []), TrunNode(t, file, first, count, base)])
  }

  function MoofNode(t: RemuxTrack, file: seq<Byte>, first: nat, count: nat, base: nat, sequence: nat): Node
    requires t.Valid(file) && first + count <= |t.sizes|
  {
    Node("moof", 8, Moof(t, file, first, count, base, sequence, MoofSize(count, base) + 8),
         [Node("mfhd", 8, Mfhd(sequence), []), TrafNode(t, file, first, count, base)])
  }

  lemma TimesBuilt(id: nat, base: nat)
    ensures Built(Node("tfhd", 8, Tfhd(id), [])) && Stated(Node("tfhd", 8, Tfhd(id), []))
    ensures Built(Node("tfdt", 8, Tfdt(base), [])) && Stated(Node("tfdt", 8, Tfdt(base), []))
  {
    hide Built, Stated, BE, FullBox;
    FullBoxBuilt("tfhd", 0, 0x020000, BE(4, id));
    if base > MaxU32 {
      FullBoxBuilt("tfdt", 1, 0, BE(8, base));
    } else {
      FullBoxBuilt("tfdt", 0, 0, BE(4, base));
    }
  }

  lemma TrunBuilt(t: RemuxTrack, file: seq<Byte>, first: nat, count: nat, base: nat)
    requires t.Valid(file) && first + count <= |t.sizes| && MoofSize(count, base) <= MaxU32
    ensures Built(TrunNode(t, file, first, count, base)) && Stated(TrunNode(t, file, first, count, base))
  {
    hide Built, Stated, BE, FullBox, Rows;
    FullBoxBuilt("trun", 1, 0x000F01, BE(4, count) + BE(4, MoofSize(count, base) + 8) + Rows(t, file, first, count));
  }

  lemma TrafParses(t: RemuxTrack, file: seq<Byte>, first: nat, count: nat, base: nat)
    requires t.Valid(file) && first + count <= |t.sizes| && MoofSize(count, base) <= MaxU32
    ensures Built(TrafNode(t, file, first, count, base)) && Stated(TrafNode(t, file, first, count, base))
  {
    hide Built, Stated, Parse, Box, Tfhd, Tfdt, Trun;
    TimesBuilt(t.id, base);
    TrunBuilt(t, file, first, count, base);
    var kids := TrafNode(t, file, first, count, base).kids;
    ParseTriple(kids[0], kids[1], kids[2]);
    BoxBuilt("traf", Tfhd(t.id) + Tfdt(base) + Trun(t, file, first, count, MoofSize(count, base) + 8), kids);
  }

  /** An object whose media fits a 32-bit box parses as a moof and a mdat that holds the samples' bytes. */
  lemma ObjectParses(t: RemuxTrack, file: seq<Byte>, first: nat, count: nat, base: nat, sequence: nat)
    requires t.Valid(file) && first + count <= |t.sizes|
    requires MoofSize(count, base) <= MaxU32 && 8 + |Media(t, file, first, count)| <= MaxU32
    ensures Parse(ObjectBytes(t, file, first, count, base, sequence)) ==
      Some([MoofNode(t, file, first, count, base, sequence),
            Node("mdat", 8, Box("mdat", Media(t, file, first, count)), [])])
  {
    hide Built, Stated, Parse, Media, Trun, BE, FullBox;
    TrafParses(t, file, first, count, base);
    FullBoxBuilt("mfhd", 0, 0, BE(4, sequence + 1));
    var moof := MoofNode(t, file, first, count, base, sequence);
    ParsePair(moof.kids[0], moof.kids[1]);
    BoxBuilt("moof", moof.kids[0].all + moof.kids[1].all, moof.kids);
    var media := Media(t, file, first, count);
    BoxBuilt("mdat", media, []);
    ParsePair(moof, Node("mdat", 8, Box("mdat", media), []));
  }
}
