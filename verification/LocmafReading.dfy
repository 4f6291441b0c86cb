/**
 * What a chunk must hold for the encoder to read these values out of it, in terms of
 * its bytes: the boxes, the fields their flags announce, and the track's defaults
 * for the fields they do not.
 */
module LocmafReading {
  import opened Bytes
  import opened LocmafChunk
  import opened RunFormat
  import F = FragmentReader

  // ---- fields

  lemma GetExactly(b: seq<Byte>, p: nat, n: nat, v: nat, next: nat)
    requires p <= |b|
    ensures Get(b, p, n) == Ok((v, next)) <==> v < Pow256(n) && Stands(b, p, BE(n, v)) && next == p + n
  {
    hide BE, FromBE;
    if p + n <= |b| {
      FromBEBound(b[p..p + n]);
    }
    if v < Pow256(n) {
      StandsWord(b, p, n, v);
    }
  }

  /** Reading a field moves on by its width, whatever it reads. */
  lemma Got(flag: bool, b: seq<Byte>, p: nat, default: nat, v: nat)
    requires p <= |b|
    ensures var r, f := GetIf(flag, b, p, default), Field(flag, v);
      (r.Ok? ==> r.value.1 == p + |f| <= |b|) && (Stands(b, p, f) ==> p + |f| <= |b|) &&
      (r.Ok? && r.value.0 == v <==> Stands(b, p, f) && FieldSettled(flag, v, default))
  {
    hide BE, FromBE;
    Pow256Values();
    if flag {
      GetExactly(b, p, 4, v, p + 4);
    } else {
      assert b[p..p + 0] == [];
    }
  }

  /** A word read, or not. */
  lemma GotWord(b: seq<Byte>, p: nat, n: nat, v: nat)
    requires p <= |b|
    ensures var r := Get(b, p, n);
      (r.Ok? ==> r.value.1 == p + n <= |b|) && (Stands(b, p, BE(n, v)) ==> p + n <= |b|) &&
      (r.Ok? && r.value.0 == v <==> Stands(b, p, BE(n, v)) && v < Pow256(n))
  {
    hide BE, FromBE;
    GetExactly(b, p, n, v, p + n);
    LengthBE(n, v);
  }

  // ---- tfhd and tfdt

  /** The payload of a tfhd with these flags. */
  function TfhdText(flags: nat, track: nat, tf: TrackFragment): seq<Byte> {
    BE(4, flags) + BE(4, track) + Field(HasBit(flags, 1), tf.description) + Field(HasBit(flags, 3), tf.duration) +
    Field(HasBit(flags, 4), tf.size) + Field(HasBit(flags, 5), tf.flags)
  }

  /** A tfhd of the track: fields that are written, the track's defaults for the others. */
  ghost predicate IsTfhd(b: seq<Byte>, c: Context, tf: TrackFragment, flags: nat) {
    flags <= MaxU32 && OnlyThese(flags, {1, 3, 4, 5, 17}) && b == TfhdText(flags, c.track, tf) &&
    FieldSettled(HasBit(flags, 1), tf.description, c.description) && FieldSettled(HasBit(flags, 3), tf.duration, c.duration) &&
    FieldSettled(HasBit(flags, 4), tf.size, c.size) && FieldSettled(HasBit(flags, 5), tf.flags, c.flags)
  }

  lemma TfhdMask(flags: nat)
    ensures OnlyBits(flags, 0x02003A) <==> OnlyThese(flags, {1, 3, 4, 5, 17})
  {
    hide OnlyBits;
    Powers24();
    Pow256Values();
    MaskAllows(flags, 0x02003A, {1, 3, 4, 5, 17});
  }

  lemma TfhdRead(b: seq<Byte>, c: Context, tf: TrackFragment, flags: nat)
    requires c.Valid() && IsTfhd(b, c, tf, flags)
    ensures ReadTfhd(b, c) == Ok(tf)
  {
    hide HasBit, OnlyBits, BE, FromBE, Field, Stands, FieldSettled, OnlyThese;
    TfhdMask(flags);
    TfhdParts(b, flags, c.track, tf);
    Pow256Values();
    var p1 := 8 + |Field(HasBit(flags, 1), tf.description)|;
    var p2 := p1 + |Field(HasBit(flags, 3), tf.duration)|;
    var p3 := p2 + |Field(HasBit(flags, 4), tf.size)|;
    GotWord(b, 0, 4, flags);
    GotWord(b, 4, 4, c.track);
    Got(HasBit(flags, 1), b, 8, c.description, tf.description);
    Got(HasBit(flags, 3), b, p1, c.duration, tf.duration);
    Got(HasBit(flags, 4), b, p2, c.size, tf.size);
    Got(HasBit(flags, 5), b, p3, c.flags, tf.flags);
  }

  /** The fields of a tfhd one behind the other, up to its end. */
  lemma TfhdParts(b: seq<Byte>, flags: nat, track: nat, tf: TrackFragment)
    ensures b == TfhdText(flags, track, tf) <==>
      Stands(b, 0, BE(4, flags)) && Stands(b, 4, BE(4, track)) &&
      Stands(b, 8, Field(HasBit(flags, 1), tf.description)) &&
      var p1 := 8 + |Field(HasBit(flags, 1), tf.description)|;
      Stands(b, p1, Field(HasBit(flags, 3), tf.duration)) &&
      var p2 := p1 + |Field(HasBit(flags, 3), tf.duration)|;
      Stands(b, p2, Field(HasBit(flags, 4), tf.size)) &&
      var p3 := p2 + |Field(HasBit(flags, 4), tf.size)|;
      Stands(b, p3, Field(HasBit(flags, 5), tf.flags)) && p3 + |Field(HasBit(flags, 5), tf.flags)| == |b|
  {
    hide HasBit, BE, Field, Stands;
    var f1, f3, f4, f5 := Field(HasBit(flags, 1), tf.description), Field(HasBit(flags, 3), tf.duration),
                          Field(HasBit(flags, 4), tf.size), Field(HasBit(flags, 5), tf.flags);
    var w1, w2 := BE(4, flags), BE(4, track);
    StandsWhole(b, TfhdText(flags, track, tf));
    StandsConcat(b, 0, w1 + w2 + f1 + f3 + f4, f5);
    StandsConcat(b, 0, w1 + w2 + f1 + f3, f4);
    StandsConcat(b, 0, w1 + w2 + f1, f3);
    StandsConcat(b, 0, w1 + w2, f1);
    StandsConcat(b, 0, w1, w2);
  }

  /** Whatever is read out of a tfhd is written there or a default of the track. */
  lemma TfhdExactly(b: seq<Byte>, c: Context, tf: TrackFragment)
    requires c.Valid()
    ensures ReadTfhd(b, c) == Ok(tf) <==> exists flags: nat :: IsTfhd(b, c, tf, flags)
  {
    hide HasBit, OnlyBits, BE, FromBE, Field, Stands, FieldSettled, OnlyThese, IsTfhd, ReadTfhd, TfhdText;
    if ReadTfhd(b, c) == Ok(tf) {
      TfhdWas(b, c, tf);
    }
    if flags: nat :| IsTfhd(b, c, tf, flags) {
      TfhdRead(b, c, tf, flags);
    }
  }

  lemma TfhdWas(b: seq<Byte>, c: Context, tf: TrackFragment)
    requires c.Valid() && ReadTfhd(b, c) == Ok(tf)
    ensures exists flags: nat :: IsTfhd(b, c, tf, flags)
  {
    hide HasBit, OnlyBits, BE, FromBE, Field, Stands, FieldSettled, OnlyThese;
    Pow256Values();
    var flags := Get(b, 0, 4).value.0;
    var p1 := 8 + |Field(HasBit(flags, 1), tf.description)|;
    var p2 := p1 + |Field(HasBit(flags, 3), tf.duration)|;
    var p3 := p2 + |Field(HasBit(flags, 4), tf.size)|;
    GotWord(b, 0, 4, flags);
    GotWord(b, 4, 4, c.track);
    Got(HasBit(flags, 1), b, 8, c.description, tf.description);
    Got(HasBit(flags, 3), b, p1, c.duration, tf.duration);
    Got(HasBit(flags, 4), b, p2, c.size, tf.size);
    Got(HasBit(flags, 5), b, p3, c.flags, tf.flags);
    TfhdMask(flags);
    TfhdParts(b, flags, c.track, tf);
    assert IsTfhd(b, c, tf, flags);
  }

  lemma TfdtExactly(b: seq<Byte>, time: nat)
    ensures ReadTfdt(b) == Ok(time) <==> IsTfdt(b, time)
  {
    hide BE, FromBE, Stands;
    Pow256Values();
    Versions();
    LengthBE(4, time);
    LengthBE(8, time);
    StandsWhole(b, BE(4, 0) + BE(4, time));
    StandsWhole(b, BE(4, 0x0100_0000) + BE(8, time));
    StandsConcat(b, 0, BE(4, 0), BE(4, time));
    StandsConcat(b, 0, BE(4, 0x0100_0000), BE(8, time));
    GotWord(b, 0, 4, 0);
    GotWord(b, 0, 4, 0x0100_0000);
    if |b| >= 4 {
      GotWord(b, 4, 4, time);
      GotWord(b, 4, 8, time);
    }
  }

  lemma Versions()
    ensures BE(4, 0) == [0, 0, 0, 0] && BE(4, 0x0100_0000) == [1, 0, 0, 0]
  {
    assert BE(2, 0) == [0, 0] && BE(2, 0x100) == [1, 0];
    assert BE(3, 0) == [0, 0, 0] && BE(3, 0x1_0000) == [1, 0, 0];
  }

  // ---- trun

  function Defaults(tf: TrackFragment): F.Defaults {
    F.Defaults(tf.duration, tf.size, tf.flags)
  }

  /** An entry as a sample: its shift is signed in version 1. */
  function SampleOf(signed: bool, e: Entry): Sample {
    Sample(e.duration, e.size, e.flags, if signed && e.shift >= 0x8000_0000 then e.shift - 0x1_0000_0000 else e.shift)
  }

  function Columns(signed: bool, es: seq<Entry>): Table {
    Table(seq(|es|, i requires 0 <= i < |es| => es[i].duration), seq(|es|, i requires 0 <= i < |es| => es[i].size),
          seq(|es|, i requires 0 <= i < |es| => es[i].flags),
          seq(|es|, i requires 0 <= i < |es| => SampleOf(signed, es[i]).offset))
  }

  /** The entries from the `i`th on agree with the defaults. */
  ghost predicate RestSettled(h: RunHead, tf: TrackFragment, i: nat, es: seq<Entry>) {
    forall j | 0 <= j < |es| ::
      EntrySettled(h.flags, es[j], if i + j > 0 then tf.flags else h.first, Defaults(tf))
  }

  lemma Signs(signed: bool, e: Entry)
    ensures SampleOf(signed, e) == Sample(e.duration, e.size, e.flags, SignedOffset(signed, e.shift))
  {
  }

  lemma SampleRead(b: seq<Byte>, p: nat, h: RunHead, tf: TrackFragment, i: nat, e: Entry)
    requires p <= |b| && tf.Valid() && h.first < TwoTo32
    requires Stands(b, p, EntryText(h.flags, e))
    requires EntrySettled(h.flags, e, if i > 0 then tf.flags else h.first, Defaults(tf))
    ensures ReadSample(b, p, h, tf, i) == Ok((SampleOf(h.signed, e), p + |EntryText(h.flags, e)|))
  {
    hide HasBit, Field, Stands, FieldSettled, EntryText, SignedOffset;
    var f8, f9, f10 := Field(HasBit(h.flags, 8), e.duration), Field(HasBit(h.flags, 9), e.size),
                       Field(HasBit(h.flags, 10), e.flags);
    EntryStands(b, p, h.flags, e);
    Signs(h.signed, e);
    Got(HasBit(h.flags, 8), b, p, tf.duration, e.duration);
    Got(HasBit(h.flags, 9), b, p + |f8|, tf.size, e.size);
    Got(HasBit(h.flags, 10), b, p + |f8| + |f9|, if i > 0 then tf.flags else h.first, e.flags);
    Got(HasBit(h.flags, 11), b, p + |f8| + |f9| + |f10|, 0, e.shift);
  }

  lemma SampleWas(b: seq<Byte>, p: nat, h: RunHead, tf: TrackFragment, i: nat) returns (e: Entry)
    requires p <= |b| && tf.Valid() && h.first < TwoTo32 && ReadSample(b, p, h, tf, i).Ok?
    ensures Stands(b, p, EntryText(h.flags, e))
    ensures EntrySettled(h.flags, e, if i > 0 then tf.flags else h.first, Defaults(tf))
    ensures ReadSample(b, p, h, tf, i).value == (SampleOf(h.signed, e), p + |EntryText(h.flags, e)|)
  {
    hide HasBit, Field, Stands, FieldSettled, EntryText, SignedOffset;
    var s := ReadSample(b, p, h, tf, i).value.0;
    Got(HasBit(h.flags, 8), b, p, tf.duration, s.duration);
    var p1 := p + |Field(HasBit(h.flags, 8), s.duration)|;
    Got(HasBit(h.flags, 9), b, p1, tf.size, s.size);
    var p2 := p1 + |Field(HasBit(h.flags, 9), s.size)|;
    Got(HasBit(h.flags, 10), b, p2, if i > 0 then tf.flags else h.first, s.flags);
    var p3 := p2 + |Field(HasBit(h.flags, 10), s.flags)|;
    var shift := GetIf(HasBit(h.flags, 11), b, p3, 0).value.0;
    Got(HasBit(h.flags, 11), b, p3, 0, shift);
    e := Entry(s.duration, s.size, s.flags, shift);
    EntryStands(b, p, h.flags, e);
    Signs(h.signed, e);
  }

  lemma ColumnsFirst(signed: bool, e: Entry, es: seq<Entry>)
    ensures Columns(signed, [e] + es) == Join(LocmafChunk.Row(SampleOf(signed, e)), Columns(signed, es))
    ensures Columns(signed, []) == Table([], [], [], [])
  {
    var all, rest := [e] + es, Columns(signed, es);
    var t := Columns(signed, all);
    assert all[1..] == es;
    assert t.durations == [e.duration] + rest.durations;
    assert t.sizes == [e.size] + rest.sizes;
    assert t.flags == [e.flags] + rest.flags;
    assert t.offsets == [SampleOf(signed, e).offset] + rest.offsets;
  }

  lemma RestFirst(h: RunHead, tf: TrackFragment, i: nat, e: Entry, es: seq<Entry>)
    ensures RestSettled(h, tf, i, [e] + es) <==>
      EntrySettled(h.flags, e, if i > 0 then tf.flags else h.first, Defaults(tf)) && RestSettled(h, tf, i + 1, es)
  {
    hide EntrySettled;
    var all := [e] + es;
    assert all[0] == e && forall j | 0 <= j < |es| :: all[j + 1] == es[j];
  }

  lemma {:induction false} SamplesRead(b: seq<Byte>, p: nat, h: RunHead, tf: TrackFragment, i: nat, es: seq<Entry>)
    requires p <= |b| && i <= h.count && |es| == h.count - i && tf.Valid() && h.first < TwoTo32
    requires Stands(b, p, EntriesText(h.flags, es)) && RestSettled(h, tf, i, es)
    ensures ReadSamples(b, p, h, tf, i) == Ok((Columns(h.signed, es), p + |EntriesText(h.flags, es)|))
    decreases |es|
  {
    hide EntryText, EntrySettled, Stands, SampleOf, ReadSample, EntriesText, RestSettled;
    if es == [] {
      NoEntries(h.flags);
      ColumnsFirst(h.signed, Entry(0, 0, 0, 0), []);
    } else {
      var e, rest := es[0], es[1..];
      assert es == [e] + rest;
      EntriesFirst(h.flags, e, rest);
      RestFirst(h, tf, i, e, rest);
      ColumnsFirst(h.signed, e, rest);
      StandsConcat(b, p, EntryText(h.flags, e), EntriesText(h.flags, rest));
      SampleRead(b, p, h, tf, i, e);
      SamplesRead(b, p + |EntryText(h.flags, e)|, h, tf, i + 1, rest);
    }
  }

  lemma NoEntries(flags: nat)
    ensures EntriesText(flags, []) == []
  {
  }

  lemma {:induction false} SamplesWere(b: seq<Byte>, p: nat, h: RunHead, tf: TrackFragment, i: nat)
    returns (es: seq<Entry>)
    requires p <= |b| && i <= h.count && tf.Valid() && h.first < TwoTo32 && ReadSamples(b, p, h, tf, i).Ok?
    ensures |es| == h.count - i && Stands(b, p, EntriesText(h.flags, es)) && RestSettled(h, tf, i, es)
    ensures ReadSamples(b, p, h, tf, i).value == (Columns(h.signed, es), p + |EntriesText(h.flags, es)|)
    decreases h.count - i
  {
    hide EntryText, EntrySettled, Stands, SampleOf, ReadSample, EntriesText, RestSettled;
    if i == h.count {
      es := [];
      NoEntries(h.flags);
      StandsNothing(b, p);
      NothingSettled(h, tf, i);
      ColumnsFirst(h.signed, Entry(0, 0, 0, 0), []);
    } else {
      var e := SampleWas(b, p, h, tf, i);
      var rest := SamplesWere(b, p + |EntryText(h.flags, e)|, h, tf, i + 1);
      es := [e] + rest;
      EntriesFirst(h.flags, e, rest);
      RestFirst(h, tf, i, e, rest);
      ColumnsFirst(h.signed, e, rest);
      StandsConcat(b, p, EntryText(h.flags, e), EntriesText(h.flags, rest));
    }
  }

  lemma NothingSettled(h: RunHead, tf: TrackFragment, i: nat)
    ensures RestSettled(h, tf, i, [])
  {
  }

  /** What the trun of a traf is read as, to its end. */
  function TrunOf(b: seq<Byte>, moofSize: nat, tf: TrackFragment): Result<Table>
    requires tf.Valid()
  {
    var h :- ReadRunHead(b, moofSize, tf);
    var (t, p) :- ReadSamples(b, h.p, h, tf, 0);
    var _ :- End(b, p);
    Ok(t)
  }

  /** A run of these samples whose data starts behind the moof and the mdat header. */
  ghost predicate IsTrun(b: seq<Byte>, moofSize: nat, tf: TrackFragment, t: Table, version: Byte, flags: nat,
                         es: seq<Entry>, first: nat) {
    version <= 1 && flags < Pow256(3) && OnlyThese(flags, {0, 2, 8, 9, 10, 11}) && HasBit(flags, 0) &&
    !(HasBit(flags, 2) && HasBit(flags, 10)) && |es| <= 1_000_000 && moofSize + 8 <= MaxU32 &&
    b == RunText(version, flags, es, moofSize + 8, first) && EntriesSettled(flags, es, first, Defaults(tf)) &&
    t == Columns(version == 1, es)
  }

  /** One byte taken off the end of a word. */
  lemma LastByte(n: nat, v: nat, high: nat, low: nat)
    requires v == 256 * high + low && low < 256
    ensures BE(n + 1, v) == BE(n, high) + [low]
  {
  }

  lemma WordSplits(version: Byte, flags: nat)
    requires flags < Pow256(3)
    ensures BE(4, 0x100_0000 * version + flags) == [version] + BE(3, flags)
    ensures 0x100_0000 * version + flags < Pow256(4)
    ensures (0x100_0000 * version + flags) / 0x100_0000 == version && (0x100_0000 * version + flags) % 0x100_0000 == flags
  {
    hide BE;
    Pow256Values();
    var f1, z1 := flags / 256, flags % 256;
    var f2, z2 := f1 / 256, f1 % 256;
    LastByte(3, 0x100_0000 * version + flags, 0x1_0000 * version + f1, z1);
    LastByte(2, 0x1_0000 * version + f1, 0x100 * version + f2, z2);
    LastByte(1, 0x100 * version + f2, version, f2);
    LastByte(0, version, 0, version);
    LastByte(2, flags, f1, z1);
    LastByte(1, f1, f2, z2);
    LastByte(0, f2, 0, f2);
    LengthBE(0, 0);
  }

  /** The head of a run that is read. */
  lemma HeadRead(b: seq<Byte>, moofSize: nat, tf: TrackFragment, version: Byte, flags: nat, count: nat, first: nat)
    requires tf.Valid() && version <= 1 && flags < Pow256(3) && OnlyThese(flags, {0, 2, 8, 9, 10, 11}) && HasBit(flags, 0)
    requires !(HasBit(flags, 2) && HasBit(flags, 10)) && count <= 1_000_000 && moofSize + 8 <= MaxU32
    requires Stands(b, 0, HeadText(version, flags, count, moofSize + 8, first)) && (HasBit(flags, 2) ==> first <= MaxU32)
    ensures ReadRunHead(b, moofSize, tf) ==
      Ok(RunHead(version == 1, flags, count, if HasBit(flags, 2) then first else tf.flags,
                             |HeadText(version, flags, count, moofSize + 8, first)|))
  {
    hide HasBit, OnlyBits, BE, FromBE, Stands, OnlyThese, Field;
    Pow256Values();
    WordSplits(version, flags);
    RunMask(flags);
    HeadStands(b, version, flags, count, moofSize + 8, first);
    Alone(first, moofSize + 8, flags);
    var word := 0x100_0000 * version + flags;
    GotWord(b, 0, 4, word);
    GotWord(b, 4, 4, count);
    GotWord(b, 8, 4, moofSize + 8);
    var own := if HasBit(flags, 2) then first else tf.flags;
    Got(HasBit(flags, 2), b, 12, tf.flags, own);
    SameText(HasBit(flags, 2), first, own);
  }

  lemma Alone(first: nat, offset: nat, flags: nat)
    requires HasBit(flags, 0)
    ensures Field(HasBit(flags, 0), offset) == BE(4, offset)
  {
  }

  lemma HeadStands(b: seq<Byte>, version: Byte, flags: nat, count: nat, offset: nat, first: nat)
    requires flags < Pow256(3) && HasBit(flags, 0)
    ensures Stands(b, 0, HeadText(version, flags, count, offset, first)) <==>
      Stands(b, 0, BE(4, 0x100_0000 * version + flags)) && Stands(b, 4, BE(4, count)) && Stands(b, 8, BE(4, offset)) &&
      Stands(b, 12, Field(HasBit(flags, 2), first))
    ensures |HeadText(version, flags, count, offset, first)| == 12 + |Field(HasBit(flags, 2), first)|
  {
    hide HasBit, BE, Stands, Field;
    WordSplits(version, flags);
    Alone(first, offset, flags);
    LengthBE(3, flags);
    LengthBE(4, count);
    LengthBE(4, offset);
    var w := [version] + BE(3, flags);
    StandsConcat(b, 0, w + BE(4, count) + BE(4, offset), Field(HasBit(flags, 2), first));
    StandsConcat(b, 0, w + BE(4, count), BE(4, offset));
    StandsConcat(b, 0, w, BE(4, count));
  }

  lemma HeadWas(b: seq<Byte>, moofSize: nat, tf: TrackFragment) returns (version: Byte, flags: nat, first: nat)
    requires tf.Valid() && ReadRunHead(b, moofSize, tf).Ok?
    ensures var h := ReadRunHead(b, moofSize, tf).value;
      version <= 1 && flags < Pow256(3) && OnlyThese(flags, {0, 2, 8, 9, 10, 11}) && HasBit(flags, 0) &&
      !(HasBit(flags, 2) && HasBit(flags, 10)) && h.count <= 1_000_000 && moofSize + 8 <= MaxU32 &&
      Stands(b, 0, HeadText(version, flags, h.count, moofSize + 8, first)) && (HasBit(flags, 2) ==> first <= MaxU32) &&
      h == RunHead(version == 1, flags, h.count, if HasBit(flags, 2) then first else tf.flags,
                               |HeadText(version, flags, h.count, moofSize + 8, first)|)
  {
    hide HasBit, OnlyBits, BE, FromBE, Stands, OnlyThese, Field;
    Pow256Values();
    var word := Get(b, 0, 4).value.0;
    GotWord(b, 0, 4, word);
    version, flags := word / 0x100_0000, word % 0x100_0000;
    WordSplits(version, flags);
    RunMask(flags);
    GotWord(b, 4, 4, Get(b, 4, 4).value.0);
    GotWord(b, 8, 4, moofSize + 8);
    first := GetIf(HasBit(flags, 2), b, 12, tf.flags).value.0;
    Got(HasBit(flags, 2), b, 12, tf.flags, first);
    HeadStands(b, version, flags, Get(b, 4, 4).value.0, moofSize + 8, first);
    Settles(HasBit(flags, 2), first, tf.flags);
  }

  lemma Settles(present: bool, v: nat, default_: nat)
    ensures FieldSettled(present, v, default_) && present ==> v <= MaxU32
    ensures FieldSettled(present, v, default_) && !present ==> v == default_
  {
  }

  lemma SettledAlike(h: RunHead, tf: TrackFragment, first: nat, es: seq<Entry>)
    requires h.first == (if HasBit(h.flags, 2) then first else tf.flags) && (HasBit(h.flags, 2) ==> first <= MaxU32)
    ensures RestSettled(h, tf, 0, es) <==> EntriesSettled(h.flags, es, first, Defaults(tf))
  {
    hide EntrySettled, HasBit;
    assert forall j | 0 <= j < |es| ::
      OwnFlags(h.flags, j, first, tf.flags) == if 0 + j > 0 then tf.flags else h.first;
  }

  /** Whatever samples are read out of a trun are the ones it states. */
  lemma TrunExactly(b: seq<Byte>, moofSize: nat, tf: TrackFragment, t: Table)
    requires tf.Valid()
    ensures TrunOf(b, moofSize, tf) == Ok(t) <==>
      exists version: Byte, flags: nat, es: seq<Entry>, first: nat :: IsTrun(b, moofSize, tf, t, version, flags, es, first)
  {
    hide HasBit, IsTrun, TrunOf;
    if TrunOf(b, moofSize, tf) == Ok(t) {
      TrunWas(b, moofSize, tf, t);
    }
    if version: Byte, flags: nat, es: seq<Entry>, first: nat :| IsTrun(b, moofSize, tf, t, version, flags, es, first) {
      TrunRead(b, moofSize, tf, t, version, flags, es, first);
    }
  }

  lemma TrunRead(b: seq<Byte>, moofSize: nat, tf: TrackFragment, t: Table, version: Byte, flags: nat, es: seq<Entry>,
                 first: nat)
    requires tf.Valid() && IsTrun(b, moofSize, tf, t, version, flags, es, first)
    ensures TrunOf(b, moofSize, tf) == Ok(t)
  {
    hide HasBit, Stands, HeadText, EntriesText, ReadRunHead, ReadSamples, OnlyThese, Columns;
    var head := HeadText(version, flags, |es|, moofSize + 8, first);
    StandsWhole(b, RunText(version, flags, es, moofSize + 8, first));
    StandsConcat(b, 0, head, EntriesText(flags, es));
    FirstFits(flags, es, first, Defaults(tf));
    HeadRead(b, moofSize, tf, version, flags, |es|, first);
    var h := ReadRunHead(b, moofSize, tf).value;
    SettledAlike(h, tf, first, es);
    SamplesRead(b, h.p, h, tf, 0, es);
  }

  lemma TrunWas(b: seq<Byte>, moofSize: nat, tf: TrackFragment, t: Table)
    requires tf.Valid() && TrunOf(b, moofSize, tf) == Ok(t)
    ensures exists version: Byte, flags: nat, es: seq<Entry>, first: nat ::
      IsTrun(b, moofSize, tf, t, version, flags, es, first)
  {
    hide HasBit, Stands, HeadText, EntriesText, ReadRunHead, ReadSamples, OnlyThese, Columns, EntriesSettled;
    var version, flags, first := HeadWas(b, moofSize, tf);
    var h := ReadRunHead(b, moofSize, tf).value;
    var es := SamplesWere(b, h.p, h, tf, 0);
    SettledAlike(h, tf, first, es);
    var head := HeadText(version, flags, |es|, moofSize + 8, first);
    StandsConcat(b, 0, head, EntriesText(flags, es));
    StandsWhole(b, RunText(version, flags, es, moofSize + 8, first));
    assert IsTrun(b, moofSize, tf, t, version, flags, es, first);
  }
}
