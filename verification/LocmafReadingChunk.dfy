/**
 * The whole chunk: the encoder reads these effective values out of a list of boxes if
 * and only if the boxes state them, and it then carries them to the receiver.
 */
module LocmafReadingChunk {
  import opened Bytes
  import opened LocmafChunk
  import opened RunFormat
  import opened LocmafReading
  import opened LocmafReadingSenc
  import opened LocmafCodec
  import opened LocmafEncoder
  import LocmafWire

  // ---- boxes

  /** A box that says its size and its type. */
  ghost predicate Boxed(b: Box) {
    Sized(b) && b.name == Name(b.all[4..8])
  }

  ghost predicate AllBoxed(list: seq<Box>) {
    forall b | b in list :: Boxed(b)
  }

  /** Bytes split into exactly the boxes that lie in them. */
  lemma {:induction false} BoxesExactly(data: seq<Byte>, list: seq<Box>)
    ensures Boxes(data) == Ok(list) <==> data == Concat(list) && AllBoxed(list)
    decreases |list|
  {
    if Boxes(data) == Ok(list) {
      BoxesTile(data);
      BoxesNamed(data);
    }
    if data == Concat(list) && AllBoxed(list) {
      BoxesBack(list);
    }
  }

  lemma {:induction false} BoxesNamed(data: seq<Byte>)
    requires Boxes(data).Ok?
    ensures AllBoxed(Boxes(data).value)
    decreases |data|
  {
    if data != [] {
      var n := FromBE(data[..4]);
      BoxesNamed(data[n..]);
      BoxesTile(data);
      assert data[..n][4..8] == data[4..8];
      var list := Boxes(data).value;
      assert list == [list[0]] + Boxes(data[n..]).value;
    }
  }

  lemma {:induction false} BoxesBack(list: seq<Box>)
    requires AllBoxed(list)
    ensures Boxes(Concat(list)) == Ok(list)
    decreases |list|
  {
    hide FromBE;
    if list != [] {
      var b, rest := list[0], list[1..];
      assert Boxed(b);
      BoxesBack(rest);
      var data, n := Concat(list), |b.all|;
      assert data == b.all + Concat(rest);
      assert data[..4] == b.all[..4] && data[4..8] == b.all[4..8] && data[..n] == b.all && data[8..n] == b.all[8..];
      assert data[n..] == Concat(rest);
      assert [b] + rest == list;
    }
  }

  /** One box of this type, and no other. */
  ghost predicate OnlyOne(list: seq<Box>, name: string, b: Box) {
    exists i | 0 <= i < |list| ::
      list[i] == b && b.name == name && forall j | 0 <= j < |list| && j != i :: list[j].name != name
  }

  lemma {:induction false} CountNone(list: seq<Box>, name: string)
    ensures Count(list, name) == 0 <==> forall j | 0 <= j < |list| :: list[j].name != name
  {
    if list != [] {
      CountNone(list[1..], name);
      assert forall j | 0 < j < |list| :: list[j] == list[1..][j - 1];
      if Count(list, name) == 0 {
        forall j | 0 <= j < |list|
          ensures list[j].name != name
        {
          if j > 0 {
            assert list[j] == list[1..][j - 1];
          }
        }
      }
    }
  }

  lemma {:induction false} OneExactly(list: seq<Box>, name: string, b: Box)
    ensures One(list, name) == Ok(b) <==> OnlyOne(list, name, b)
    ensures Count(list, name) == 1 <==> exists x :: OnlyOne(list, name, x)
  {
    if list != [] {
      var first, rest := list[0], list[1..];
      assert forall j | 0 < j < |list| :: list[j] == rest[j - 1];
      CountNone(rest, name);
      if first.name == name {
        OneFirst(list, name);
      } else {
        OneExactly(rest, name, b);
        OneLater(list, name, b);
        assert First(list, name) == First(rest, name);
        if x :| OnlyOne(list, name, x) {
          OneLater(list, name, x);
        }
        if x :| OnlyOne(rest, name, x) {
          OneLater(list, name, x);
        }
      }
    }
  }

  lemma OneFirst(list: seq<Box>, name: string)
    requires list != [] && list[0].name == name
    ensures (forall j | 0 <= j < |list[1..]| :: list[1..][j].name != name) ==> OnlyOne(list, name, list[0])
    ensures forall b | OnlyOne(list, name, b) ::
      b == list[0] && forall j | 0 <= j < |list[1..]| :: list[1..][j].name != name
  {
    assert forall j | 0 < j < |list| :: list[j] == list[1..][j - 1];
    forall b | OnlyOne(list, name, b)
      ensures b == list[0] && forall j | 0 <= j < |list[1..]| :: list[1..][j].name != name
    {
      var i :| 0 <= i < |list| && list[i] == b && b.name == name &&
        forall j | 0 <= j < |list| && j != i :: list[j].name != name;
      forall j | 0 <= j < |list[1..]|
        ensures list[1..][j].name != name
      {
        assert list[1..][j] == list[j + 1];
      }
    }
  }

  lemma OneLater(list: seq<Box>, name: string, b: Box)
    requires list != [] && list[0].name != name
    ensures OnlyOne(list, name, b) <==> OnlyOne(list[1..], name, b)
  {
    var rest := list[1..];
    if OnlyOne(list, name, b) {
      var i :| 0 <= i < |list| && list[i] == b && b.name == name &&
        forall j | 0 <= j < |list| && j != i :: list[j].name != name;
      assert rest[i - 1] == b && forall j | 0 <= j < |rest| :: rest[j] == list[j + 1];
    }
    if OnlyOne(rest, name, b) {
      var i :| 0 <= i < |rest| && rest[i] == b && b.name == name &&
        forall j | 0 <= j < |rest| && j != i :: rest[j].name != name;
      assert list[i + 1] == b && forall j | 0 < j < |list| :: list[j] == rest[j - 1];
    }
  }

  ghost predicate Named(list: seq<Box>, name: string) {
    exists i | 0 <= i < |list| :: list[i].name == name
  }

  lemma FirstNamed(list: seq<Box>, name: string)
    ensures First(list, name).Some? <==> Named(list, name)
  {
    var f := First(list, name);
    if f.Some? {
      var i :| 0 <= i < |list| && list[i] == f.value;
    }
    if Named(list, name) {
      var i :| 0 <= i < |list| && list[i].name == name;
      assert list[i] in list;
    }
  }

  // ---- the moof

  ghost predicate AllOf(list: seq<Box>, names: set<string>) {
    forall i | 0 <= i < |list| :: list[i].name in names
  }

  lemma NamesAre(list: seq<Box>, names: set<string>)
    ensures AllNamed(list, names) <==> AllOf(list, names)
  {
    if AllOf(list, names) {
      forall b | b in list
        ensures b.name in names
      {
        var i :| 0 <= i < |list| && list[i] == b;
      }
    }
  }

  /** A movie fragment of one mfhd and one traf, and the boxes of that traf, one trun among them. */
  ghost predicate IsMoof(data: seq<Byte>, tc: seq<Box>, mc: seq<Box>, mfhd: Box, traf: Box) {
    data == Concat(mc) && AllBoxed(mc) && AllOf(mc, {"mfhd", "traf"}) &&
    OnlyOne(mc, "mfhd", mfhd) && OnlyOne(mc, "traf", traf) && |mfhd.data| == 8 && mfhd.data[..4] == [0, 0, 0, 0] &&
    traf.data == Concat(tc) && AllBoxed(tc) && AllOf(tc, {"tfhd", "tfdt", "trun", "senc", "saiz", "saio"}) &&
    exists trun :: OnlyOne(tc, "trun", trun)
  }

  lemma MfhdExactly(b: seq<Byte>)
    ensures (var mf := Get(b, 0, 4);
             mf.Ok? && mf.value.0 == 0 && Get(b, 4, 4).Ok? && Get(b, 4, 4).value.1 == |b|) <==>
      |b| == 8 && b[..4] == [0, 0, 0, 0]
  {
    hide BE, FromBE;
    Versions();
    Pow256Values();
    GotWord(b, 0, 4, 0);
    assert |b| >= 4 ==> b[0..0 + 4] == b[..4];
  }

  lemma MoofExactly(data: seq<Byte>, tc: seq<Box>)
    ensures ReadMoof(data) == Ok(tc) <==> exists mc, mfhd, traf :: IsMoof(data, tc, mc, mfhd, traf)
  {
    hide IsMoof, ReadMoof;
    if ReadMoof(data) == Ok(tc) {
      MoofWas(data, tc);
    }
    if mc, mfhd, traf :| IsMoof(data, tc, mc, mfhd, traf) {
      MoofRead(data, tc, mc, mfhd, traf);
    }
  }

  lemma MoofWas(data: seq<Byte>, tc: seq<Box>)
    requires ReadMoof(data) == Ok(tc)
    ensures exists mc, mfhd, traf :: IsMoof(data, tc, mc, mfhd, traf)
  {
    hide Boxes, Count, One, AllNamed, OnlyOne, AllBoxed, AllOf, BE, FromBE, Get;
    var mc := Boxes(data).value;
    var mfhd, traf := One(mc, "mfhd").value, One(mc, "traf").value;
    BoxesExactly(data, mc);
    BoxesExactly(traf.data, tc);
    NamesAre(mc, {"mfhd", "traf"});
    NamesAre(tc, {"tfhd", "tfdt", "trun", "senc", "saiz", "saio"});
    OneExactly(mc, "mfhd", mfhd);
    OneExactly(mc, "traf", traf);
    OneExactly(tc, "trun", traf);
    GotWord(mfhd.data, 0, 4, 0);
    MfhdExactly(mfhd.data);
    assert IsMoof(data, tc, mc, mfhd, traf);
  }

  lemma MoofRead(data: seq<Byte>, tc: seq<Box>, mc: seq<Box>, mfhd: Box, traf: Box)
    requires IsMoof(data, tc, mc, mfhd, traf)
    ensures ReadMoof(data) == Ok(tc)
  {
    hide Boxes, Count, One, AllNamed, OnlyOne, AllBoxed, AllOf, BE, FromBE, Get;
    BoxesExactly(data, mc);
    BoxesExactly(traf.data, tc);
    NamesAre(mc, {"mfhd", "traf"});
    NamesAre(tc, {"tfhd", "tfdt", "trun", "senc", "saiz", "saio"});
    OneExactly(mc, "mfhd", mfhd);
    OneExactly(mc, "traf", traf);
    OneExactly(tc, "trun", traf);
    GotWord(mfhd.data, 0, 4, 0);
    MfhdExactly(mfhd.data);
  }

  // ---- the traf

  /** The three boxes a traf needs, and what they state; the samples cover the payload. */
  ghost predicate IsTraf(tc: seq<Box>, c: Context, moofSize: nat, payload: seq<Byte>, tf: TrackFragment, bmdt: nat, t: Table,
                         tfhd: Box, tfdt: Box, trun: Box) {
    OnlyOne(tc, "tfhd", tfhd) && (exists flags: nat :: IsTfhd(tfhd.data, c, tf, flags)) &&
    OnlyOne(tc, "tfdt", tfdt) && IsTfdt(tfdt.data, bmdt) && OnlyOne(tc, "trun", trun) &&
    (exists version: Byte, flags: nat, es: seq<Entry>, first: nat ::
       IsTrun(trun.data, moofSize, tf, t, version, flags, es, first)) &&
    Sum(t.sizes) == |payload|
  }

  lemma TrafExactly(tc: seq<Box>, c: Context, moofSize: nat, payload: seq<Byte>, tf: TrackFragment, bmdt: nat, t: Table)
    requires c.Valid()
    ensures ReadTraf(tc, c, moofSize, payload) == Ok((tf, bmdt, t)) <==>
      exists tfhd, tfdt, trun :: IsTraf(tc, c, moofSize, payload, tf, bmdt, t, tfhd, tfdt, trun)
  {
    hide IsTraf, ReadTraf;
    if ReadTraf(tc, c, moofSize, payload) == Ok((tf, bmdt, t)) {
      TrafWas(tc, c, moofSize, payload, tf, bmdt, t);
    }
    if tfhd, tfdt, trun :| IsTraf(tc, c, moofSize, payload, tf, bmdt, t, tfhd, tfdt, trun) {
      TrafRead(tc, c, moofSize, payload, tf, bmdt, t, tfhd, tfdt, trun);
    }
  }

  lemma TrafWas(tc: seq<Box>, c: Context, moofSize: nat, payload: seq<Byte>, tf: TrackFragment, bmdt: nat, t: Table)
    requires c.Valid() && ReadTraf(tc, c, moofSize, payload) == Ok((tf, bmdt, t))
    ensures exists tfhd, tfdt, trun :: IsTraf(tc, c, moofSize, payload, tf, bmdt, t, tfhd, tfdt, trun)
  {
    hide One, OnlyOne, ReadTfhd, ReadTfdt, ReadRunHead, ReadSamples, IsTfhd, IsTfdt, IsTrun;
    var tfhd, tfdt, trun := One(tc, "tfhd").value, One(tc, "tfdt").value, One(tc, "trun").value;
    OneExactly(tc, "tfhd", tfhd);
    OneExactly(tc, "tfdt", tfdt);
    OneExactly(tc, "trun", trun);
    TfhdExactly(tfhd.data, c, tf);
    TfdtExactly(tfdt.data, bmdt);
    TrunExactly(trun.data, moofSize, tf, t);
    assert IsTraf(tc, c, moofSize, payload, tf, bmdt, t, tfhd, tfdt, trun);
  }

  lemma TrafRead(tc: seq<Box>, c: Context, moofSize: nat, payload: seq<Byte>, tf: TrackFragment, bmdt: nat, t: Table,
                 tfhd: Box, tfdt: Box, trun: Box)
    requires c.Valid() && IsTraf(tc, c, moofSize, payload, tf, bmdt, t, tfhd, tfdt, trun)
    ensures ReadTraf(tc, c, moofSize, payload) == Ok((tf, bmdt, t))
  {
    hide One, OnlyOne, ReadTfhd, ReadTfdt, ReadRunHead, ReadSamples, IsTfhd, IsTfdt, IsTrun;
    OneExactly(tc, "tfhd", tfhd);
    OneExactly(tc, "tfdt", tfdt);
    OneExactly(tc, "trun", trun);
    TfhdExactly(tfhd.data, c, tf);
    TfdtExactly(tfdt.data, bmdt);
    TrunExactly(trun.data, moofSize, tf, t);
  }

  // ---- protection

  /** The vectors and subsamples of the senc box, or none where the track needs none and nothing points at any. */
  ghost predicate IsProtection(tc: seq<Box>, c: Context, sizes: seq<int>, s: Senc) {
    if Named(tc, "senc") then
      exists senc, mapped: bool, rows: seq<Row> :: OnlyOne(tc, "senc", senc) && IsSenc(senc.data, c, sizes, s, mapped, rows)
    else
      !(c.protectedTrack && c.iv != 0 && sizes != []) && !Named(tc, "saiz") && !Named(tc, "saio") && s == Senc([], false, None)
  }

  lemma ProtectionExactly(tc: seq<Box>, c: Context, sizes: seq<int>, s: Senc)
    requires c.Valid()
    ensures ReadProtection(tc, c, sizes) == Ok(s) <==> IsProtection(tc, c, sizes, s)
  {
    hide One, OnlyOne, First, Named, Encryption, IsSenc;
    FirstNamed(tc, "senc");
    FirstNamed(tc, "saiz");
    FirstNamed(tc, "saio");
    if Named(tc, "senc") {
      if One(tc, "senc").Ok? {
        var senc := One(tc, "senc").value;
        OneExactly(tc, "senc", senc);
        SencExactly(senc.data, c, sizes, s);
      }
      if senc, mapped: bool, rows: seq<Row> :| OnlyOne(tc, "senc", senc) && IsSenc(senc.data, c, sizes, s, mapped, rows) {
        OneExactly(tc, "senc", senc);
        SencExactly(senc.data, c, sizes, s);
      }
    }
  }

  // ---- the chunk

  /** Boxes ahead, then a moof and its mdat, that state these effective values. */
  ghost predicate IsChunk(top: seq<Box>, c: Context, e: Effective, moof: Box, mdat: Box, tc: seq<Box>, tf: TrackFragment) {
    top == e.prefix + [moof, mdat] && moof.name == "moof" && mdat.name == "mdat" &&
    (forall i | 0 <= i < |e.prefix| :: e.prefix[i].name != "mdat" && e.prefix[i].name != "moof") &&
    mdat.data == e.payload && tf.description == e.description &&
    (exists mc, mfhd, traf :: IsMoof(moof.data, tc, mc, mfhd, traf)) &&
    (exists tfhd, tfdt, trun :: IsTraf(tc, c, |moof.all|, e.payload, tf, e.bmdt, e.table, tfhd, tfdt, trun)) &&
    IsProtection(tc, c, e.table.sizes, e.senc)
  }

  /** The encoder reads these values out of a chunk if and only if the chunk states them. */
  lemma ChunkExactly(top: seq<Box>, c: Context, e: Effective)
    requires c.Valid()
    ensures Read(top, c) == Ok(e) <==> exists moof, mdat, tc, tf :: IsChunk(top, c, e, moof, mdat, tc, tf)
  {
    hide IsChunk, Read;
    if Read(top, c) == Ok(e) {
      ChunkWas(top, c, e);
    }
    if moof, mdat, tc, tf :| IsChunk(top, c, e, moof, mdat, tc, tf) {
      ChunkRead(top, c, e, moof, mdat, tc, tf);
    }
  }

  lemma {:induction false} MoofIsAt(prefix: seq<Box>, moof: Box, mdat: Box)
    requires moof.name == "moof" && forall i | 0 <= i < |prefix| :: prefix[i].name != "moof"
    ensures IndexOf(prefix + [moof, mdat], "moof") == |prefix|
    decreases |prefix|
  {
    var all := prefix + [moof, mdat];
    if prefix != [] {
      assert all[0] == prefix[0] && all[1..] == prefix[1..] + [moof, mdat];
      assert forall i | 0 <= i < |prefix[1..]| :: prefix[1..][i] == prefix[i + 1];
      MoofIsAt(prefix[1..], moof, mdat);
    }
  }

  lemma ChunkWas(top: seq<Box>, c: Context, e: Effective)
    requires c.Valid() && Read(top, c) == Ok(e)
    ensures exists moof, mdat, tc, tf :: IsChunk(top, c, e, moof, mdat, tc, tf)
  {
    hide ReadMoof, ReadTraf, ReadProtection, IsMoof, IsTraf, IsProtection, IndexOf;
    var it := IndexOf(top, "moof");
    var moof, mdat := top[it], top[it + 1];
    assert top == top[..it] + [moof, mdat];
    var tc := ReadMoof(moof.data).value;
    var tf := ReadTraf(tc, c, |moof.all|, e.payload).value.0;
    MoofExactly(moof.data, tc);
    TrafExactly(tc, c, |moof.all|, e.payload, tf, e.bmdt, e.table);
    ProtectionExactly(tc, c, e.table.sizes, e.senc);
    assert IsChunk(top, c, e, moof, mdat, tc, tf);
  }

  lemma ChunkRead(top: seq<Box>, c: Context, e: Effective, moof: Box, mdat: Box, tc: seq<Box>, tf: TrackFragment)
    requires c.Valid() && IsChunk(top, c, e, moof, mdat, tc, tf)
    ensures Read(top, c) == Ok(e)
  {
    hide ReadMoof, ReadTraf, ReadProtection, IsMoof, IsTraf, IsProtection, IndexOf;
    MoofIsAt(e.prefix, moof, mdat);
    MoofExactly(moof.data, tc);
    TrafExactly(tc, c, |moof.all|, e.payload, tf, e.bmdt, e.table);
    ProtectionExactly(tc, c, e.table.sizes, e.senc);
    assert top[..|e.prefix|] == e.prefix;
    forall b | b in e.prefix
      ensures b.name != "mdat" && b.name != "moof"
    {
      var i :| 0 <= i < |e.prefix| && e.prefix[i] == b;
    }
  }

  // ---- what the encoder takes

  /** No sample groups, subsample information or fragment licences, as deep as containers go. */
  ghost predicate Clean(list: seq<Box>, depth: nat)
    requires depth <= 33
    decreases 33 - depth
  {
    depth <= 32 && forall i | 0 <= i < |list| :: CleanBox(list[i], depth)
  }

  ghost predicate CleanBox(b: Box, depth: nat)
    requires depth <= 32
    decreases 33 - depth, 0
  {
    b.name !in {"sgpd", "sbgp", "subs", "pssh"} &&
    (b.name in {"moov", "trak", "mdia", "minf", "stbl", "moof", "traf"} ==>
       exists inner: seq<Box> :: b.data == Concat(inner) && AllBoxed(inner) && Clean(inner, depth + 1))
  }

  lemma {:induction false} ExcludedExactly(list: seq<Box>, depth: nat)
    requires depth <= 33
    ensures Excluded(list, true, depth).Ok? <==> Clean(list, depth)
    decreases 33 - depth, |list|
  {
    hide Boxes, Concat, AllBoxed;
    if depth <= 32 && list != [] {
      var b, rest := list[0], list[1..];
      ExcludedExactly(rest, depth);
      assert list == [b] + rest;
      CleanFirst(b, rest, depth);
      if Descends(b.name) {
        if Boxes(b.data).Ok? {
          BoxesExactly(b.data, Boxes(b.data).value);
          ExcludedExactly(Boxes(b.data).value, depth + 1);
        }
        if inner: seq<Box> :| b.data == Concat(inner) && AllBoxed(inner) && Clean(inner, depth + 1) {
          BoxesExactly(b.data, inner);
        }
      }
    }
  }

  lemma CleanFirst(b: Box, rest: seq<Box>, depth: nat)
    requires depth <= 32
    ensures Clean([b] + rest, depth) <==> CleanBox(b, depth) && Clean(rest, depth)
  {
    hide CleanBox;
    var all := [b] + rest;
    assert all[0] == b && forall i | 0 <= i < |rest| :: all[i + 1] == rest[i];
  }

  /** A chunk of clean boxes that state these values is sent as them, and as nothing else. */
  lemma MeaningExactly(c: Context, top: seq<Box>, e: Effective)
    requires c.Valid() && top != [] && AllBoxed(top)
    requires exists moof, mdat, tc, tf :: IsChunk(top, c, e, moof, mdat, tc, tf)
    ensures Meaning(c, Concat(top)) ==
      if Clean(top, 0) then Some(Chunk(LocmafWire.AllBytes(e.prefix), e.description, e.bmdt, e.table, e.senc, e.payload)) else None
  {
    hide Read, Boxes, Concat, Clean, IsChunk, Sized;
    BoxesExactly(Concat(top), top);
    ExcludedExactly(top, 0);
    ChunkExactly(top, c, e);
    NotNothing(top);
  }

  lemma NotNothing(top: seq<Box>)
    requires top != [] && AllBoxed(top)
    ensures Concat(top) != []
  {
    hide FromBE;
    assert Boxed(top[0]);
  }

  // ---- what is sent as it is

  /** Boxes ahead, then a moof and a mdat. */
  ghost predicate Shaped(top: seq<Box>, prefix: seq<Box>, moof: Box, mdat: Box) {
    top == prefix + [moof, mdat] && moof.name == "moof" && mdat.name == "mdat" &&
    forall i | 0 <= i < |prefix| :: prefix[i].name != "mdat" && prefix[i].name != "moof"
  }

  /** Boxes of another shape, and movie fragments with boxes the field model lacks, are sent raw. */
  lemma ForeignGoesRaw(c: Context, top: seq<Box>)
    requires c.Valid()
    ensures (forall prefix, moof, mdat :: !Shaped(top, prefix, moof, mdat)) ==> Read(top, c) == Err(Outside)
    ensures forall prefix, moof, mdat, mc | Shaped(top, prefix, moof, mdat) && moof.data == Concat(mc) && AllBoxed(mc) &&
      !(AllOf(mc, {"mfhd", "traf"}) && exists traf :: OnlyOne(mc, "traf", traf)) :: Read(top, c) == Err(Outside)
  {
    hide ReadTraf, ReadProtection, ReadMoof, IndexOf, OnlyOne, AllBoxed, AllOf, Boxes, Concat;
    if forall prefix, moof, mdat :: !Shaped(top, prefix, moof, mdat) {
      var it := IndexOf(top, "moof");
      if it < |top| && |top| - it == 2 && top[it + 1].name == "mdat" {
        assert top == top[..it] + [top[it], top[it + 1]];
        assert !Shaped(top, top[..it], top[it], top[it + 1]);
        assert exists b | b in top[..it] :: b.name == "mdat" || b.name == "moof";
      }
    }
    forall prefix, moof, mdat, mc | Shaped(top, prefix, moof, mdat) && moof.data == Concat(mc) && AllBoxed(mc) &&
      !(AllOf(mc, {"mfhd", "traf"}) && exists traf :: OnlyOne(mc, "traf", traf))
      ensures Read(top, c) == Err(Outside)
    {
      MoofIsAt(prefix, moof, mdat);
      BoxesExactly(moof.data, mc);
      ForeignMoof(moof.data, mc, moof);
      assert top[..|prefix|] == prefix;
      PrefixNamed(prefix);
    }
  }

  lemma PrefixNamed(prefix: seq<Box>)
    requires forall i | 0 <= i < |prefix| :: prefix[i].name != "mdat" && prefix[i].name != "moof"
    ensures forall b | b in prefix :: b.name != "mdat" && b.name != "moof"
  {
  }

  lemma ForeignMoof(data: seq<Byte>, mc: seq<Box>, some: Box)
    requires Boxes(data) == Ok(mc) && !(AllOf(mc, {"mfhd", "traf"}) && exists traf :: OnlyOne(mc, "traf", traf))
    ensures ReadMoof(data) == Err(Outside)
  {
    hide Boxes, Count, One, OnlyOne, AllOf, AllNamed, Get;
    NamesAre(mc, {"mfhd", "traf"});
    OneExactly(mc, "traf", some);
  }
}
