/**
 * What a track fragment must state for the strict reader to get these samples out of
 * it: the fields of its header and its runs, and the track's defaults for the rest.
 */
module FragmentFields {
  import opened Bytes
  import opened SampleLayout
  import opened LocEncoder
  import opened FragmentReader
  import opened RunFormat

  // ---- tfdt

  lemma TimeExactly(b: seq<Byte>, time: nat)
    ensures TimeOf(b) == Some(time) <==> IsTfdt(b, time)
  {
    hide BE, FromBE, Stands;
    Pow256Values();
    LengthBE(4, time);
    LengthBE(8, time);
    Zeros();
    if |b| >= 4 {
      assert b == b[..4] + b[4..];
      assert b[..4] == [b[0]] + b[1..4];
      RewriteBE(b[1..4]);
    }
    if |b| == 8 {
      assert b[4..4 + 4] == b[4..];
      FromBEBound(b[4..]);
      StandsAll(b[4..], 4, time);
    } else if |b| == 12 {
      FromBEBound(b[4..]);
      StandsAll(b[4..], 8, time);
    }
  }

  lemma Zeros()
    ensures BE(3, 0) == [0, 0, 0] && FromBE([0, 0, 0]) == 0
  {
    Pow256Values();
    assert BE(2, 0) == [0, 0];
    ReadBackBE(3, 0);
  }

  lemma StandsAll(s: seq<Byte>, n: nat, v: nat)
    requires |s| == n
    ensures FromBE(s) == v <==> v < Pow256(n) && s == BE(n, v)
  {
    hide BE, FromBE;
    FromBEBound(s);
    RewriteBE(s);
    if v < Pow256(n) {
      ReadBackBE(n, v);
    }
  }

  // ---- tfhd

  /** The fields behind the track id and the base offset, to the end of the box. */
  ghost predicate FieldsStand(b: seq<Byte>, pos: nat, flags: nat, d: Defaults) {
    var f1, f3, f4, f5 := Field(HasBit(flags, 1), 1), Field(HasBit(flags, 3), d.duration), Field(HasBit(flags, 4), d.size),
                          Field(HasBit(flags, 5), d.flags);
    Stands(b, pos, f1) && Stands(b, pos + |f1|, f3) && Stands(b, pos + |f1| + |f3|, f4) &&
    Stands(b, pos + |f1| + |f3| + |f4|, f5) && pos + |f1| + |f3| + |f4| + |f5| == |b|
  }

  ghost predicate DefaultsSettled(flags: nat, d: Defaults, own: Defaults) {
    FieldSettled(HasBit(flags, 3), d.duration, own.duration) && FieldSettled(HasBit(flags, 4), d.size, own.size) &&
    FieldSettled(HasBit(flags, 5), d.flags, own.flags)
  }

  lemma FieldsExactly(b: seq<Byte>, flags: nat, track: FragmentTrack, base: nat, pos: nat, head: Head)
    requires pos <= |b|
    ensures HeadFields(b, flags, track, base, pos) == Some(head) <==>
      FieldsStand(b, pos, flags, head.defaults) && DefaultsSettled(flags, head.defaults, track.defaults) &&
      head.track == track && head.base == base && head.empty == HasBit(flags, 16)
  {
    hide HasBit, Field, Stands, FieldSettled, Take;
    var d := head.defaults;
    var f1, f3, f4 := Field(HasBit(flags, 1), 1), Field(HasBit(flags, 3), d.duration), Field(HasBit(flags, 4), d.size);
    var p1 := pos + |f1|;
    var p3 := p1 + |f3|;
    var p4 := p3 + |f4|;
    OneSettled(HasBit(flags, 1));
    Taken(b, pos, HasBit(flags, 1), 1, 1);
    if p1 <= |b| {
      Taken(b, p1, HasBit(flags, 3), track.defaults.duration, d.duration);
      if p3 <= |b| {
        Taken(b, p3, HasBit(flags, 4), track.defaults.size, d.size);
        if p4 <= |b| {
          Taken(b, p4, HasBit(flags, 5), track.defaults.flags, d.flags);
        }
      }
    }
  }

  lemma OneSettled(present: bool)
    ensures FieldSettled(present, 1, 1)
  {
  }

  /** The first track of this id. */
  ghost predicate IsFirst(tracks: seq<FragmentTrack>, id: nat, track: FragmentTrack) {
    exists k | 0 <= k < |tracks| :: tracks[k] == track && track.id == id && forall j | 0 <= j < k :: tracks[j].id != id
  }

  lemma {:induction false} FindExactly(tracks: seq<FragmentTrack>, id: nat, track: FragmentTrack)
    ensures FindTrack(tracks, id) == Some(track) <==> IsFirst(tracks, id, track)
  {
    if tracks != [] && tracks[0].id != id {
      var rest := tracks[1..];
      FindExactly(rest, id, track);
      if IsFirst(rest, id, track) {
        var k :| 0 <= k < |rest| && rest[k] == track && track.id == id && forall j | 0 <= j < k :: rest[j].id != id;
        assert tracks[k + 1] == track && forall j | 0 < j < k + 1 :: tracks[j] == rest[j - 1];
      }
      if IsFirst(tracks, id, track) {
        var k :| 0 <= k < |tracks| && tracks[k] == track && track.id == id && forall j | 0 <= j < k :: tracks[j].id != id;
        assert rest[k - 1] == track && forall j | 0 <= j < k - 1 :: rest[j] == tracks[j + 1];
      }
    } else if tracks != [] {
      assert FindTrack(tracks, id) == Some(tracks[0]);
      assert IsFirst(tracks, id, tracks[0]);
    }
  }

  /** A track fragment header that settles this; an absolute base offset only outside live fragments. */
  ghost predicate IsTfhd(b: seq<Byte>, tracks: seq<FragmentTrack>, moofAt: nat, inherited: nat, live: bool, head: Head,
                         flags: nat, id: nat) {
    flags < Pow256(3) && id <= MaxU32 && OnlyThese(flags, {0, 1, 3, 4, 5, 16, 17}) &&
    Stands(b, 0, [0] + BE(3, flags) + BE(4, id)) && IsFirst(tracks, id, head.track) && head.track.clear &&
    head.empty == HasBit(flags, 16) && DefaultsSettled(flags, head.defaults, head.track.defaults) &&
    if HasBit(flags, 0) then
      !live && head.base <= MaxU64 && Stands(b, 8, BE(8, head.base)) && FieldsStand(b, 16, flags, head.defaults)
    else
      head.base == (if HasBit(flags, 17) then moofAt else inherited) && FieldsStand(b, 8, flags, head.defaults)
  }

  lemma HeadMask(flags: nat)
    ensures OnlyBits(flags, 0x03003b) <==> OnlyThese(flags, {0, 1, 3, 4, 5, 16, 17})
  {
    hide OnlyBits;
    Powers24();
    Pow256Values();
    MaskAllows(flags, 0x03003b, {0, 1, 3, 4, 5, 16, 17});
  }

  lemma IdStands(b: seq<Byte>, flags: nat, id: nat)
    requires flags < Pow256(3) && id <= MaxU32
    ensures Stands(b, 0, [0] + BE(3, flags) + BE(4, id)) <==>
      |b| >= 8 && b[0] == 0 && FromBE(b[1..4]) == flags && FromBE(b[4..8]) == id
  {
    hide BE, FromBE, Stands;
    Pow256Values();
    LengthBE(3, flags);
    StandsConcat(b, 0, [0] + BE(3, flags), BE(4, id));
    StandsConcat(b, 0, [0], BE(3, flags));
    StandsOne(b, 0, 0);
    StandsWord(b, 1, 3, flags);
    StandsWord(b, 4, 4, id);
  }

  lemma HeadExactly(b: seq<Byte>, tracks: seq<FragmentTrack>, moofAt: nat, inherited: nat, live: bool, head: Head)
    ensures HeadOf(b, tracks, moofAt, inherited, live) == Some(head) <==>
      exists flags: nat, id: nat :: IsTfhd(b, tracks, moofAt, inherited, live, head, flags, id)
  {
    hide IsTfhd, HeadOf, FromBE;
    if HeadOf(b, tracks, moofAt, inherited, live) == Some(head) {
      HeadIsLong(b, tracks, moofAt, inherited, live);
      HeadIs(b, tracks, moofAt, inherited, live, head, FromBE(b[1..4]), FromBE(b[4..8]));
    }
    if flags: nat, id: nat :| IsTfhd(b, tracks, moofAt, inherited, live, head, flags, id) {
      TfhdIsLong(b, tracks, moofAt, inherited, live, head, flags, id);
      HeadIs(b, tracks, moofAt, inherited, live, head, flags, id);
    }
  }

  lemma HeadIsLong(b: seq<Byte>, tracks: seq<FragmentTrack>, moofAt: nat, inherited: nat, live: bool)
    requires HeadOf(b, tracks, moofAt, inherited, live).Some?
    ensures |b| >= 8
  {
  }

  lemma TfhdIsLong(b: seq<Byte>, tracks: seq<FragmentTrack>, moofAt: nat, inherited: nat, live: bool, head: Head, flags: nat,
                   id: nat)
    requires IsTfhd(b, tracks, moofAt, inherited, live, head, flags, id)
    ensures |b| >= 8 && FromBE(b[1..4]) == flags && FromBE(b[4..8]) == id
  {
    hide BE, FromBE, Stands;
    IdStands(b, flags, id);
  }

  lemma HeadIs(b: seq<Byte>, tracks: seq<FragmentTrack>, moofAt: nat, inherited: nat, live: bool, head: Head, flags: nat,
               id: nat)
    requires |b| >= 8 && FromBE(b[1..4]) == flags && FromBE(b[4..8]) == id
    ensures HeadOf(b, tracks, moofAt, inherited, live) == Some(head) <==>
      IsTfhd(b, tracks, moofAt, inherited, live, head, flags, id)
  {
    hide BE, FromBE, Stands, FieldsStand, HasBit, OnlyBits, OnlyThese, HeadFields, FindTrack, IsFirst, DefaultsSettled;
    Pow256Values();
    FromBEBound(b[1..4]);
    FromBEBound(b[4..8]);
    HeadMask(flags);
    IdStands(b, flags, id);
    FindExactly(tracks, id, head.track);
    if |b| >= 16 {
      FromBEBound(b[8..16]);
      FieldsExactly(b, flags, head.track, FromBE(b[8..16]), 16, head);
    }
    if head.base <= MaxU64 {
      StandsWord(b, 8, 8, head.base);
    }
    FieldsExactly(b, flags, head.track, if HasBit(flags, 17) then moofAt else inherited, 8, head);
    if FindTrack(tracks, id).Some? {
      FieldsKeepTrack(b, flags, FindTrack(tracks, id).value, if HasBit(flags, 17) then moofAt else inherited, 8);
      if |b| >= 16 {
        FieldsKeepTrack(b, flags, FindTrack(tracks, id).value, FromBE(b[8..16]), 16);
      }
    }
  }

  lemma FieldsKeepTrack(b: seq<Byte>, flags: nat, track: FragmentTrack, base: nat, pos: nat)
    ensures var h := HeadFields(b, flags, track, base, pos);
      h.Some? ==> h.value.track == track && h.value.base == base && h.value.empty == HasBit(flags, 16)
  {
    hide HasBit, Take;
  }

  // ---- the samples of a run

  function SizesTo(es: seq<Entry>, k: nat): nat
    requires k <= |es|
  {
    if k == 0 then 0 else SizesTo(es, k - 1) + es[k - 1].size
  }

  function DurationsTo(es: seq<Entry>, k: nat): nat
    requires k <= |es|
  {
    if k == 0 then 0 else DurationsTo(es, k - 1) + es[k - 1].duration
  }

  /** Composition offsets are signed in version 1. */
  function Shift(signed: bool, e: Entry): int {
    if signed && e.shift >= 0x8000_0000 then e.shift - 0x1_0000_0000 else e.shift
  }

  /** A sample of sound, or one that does not say it depends on others or that it is no sync sample. */
  predicate Syncs(video: bool, flags: nat) {
    !video || !(HasBit(flags, 16) || (flags / 0x100_0000) % 4 == 1)
  }

  /** Sample `i` lies behind the ones before it, in bytes and in time. */
  predicate SoundAt(track: Track, file: File, signed: bool, es: seq<Entry>, i: nat, cursor: nat, decode: nat)
    requires file.Parsed() && i < |es|
  {
    Sound(track, file, cursor + SizesTo(es, i), es[i].size, decode + DurationsTo(es, i), Shift(signed, es[i]), es[i].duration)
  }

  function SampleAt(track: Track, file: File, signed: bool, es: seq<Entry>, i: nat, cursor: nat, decode: nat): Sample
    requires file.Parsed() && i < |es| && SoundAt(track, file, signed, es, i, cursor, decode)
  {
    SampleOf(track, file, cursor + SizesTo(es, i), es[i].size, decode + DurationsTo(es, i), Shift(signed, es[i]), es[i].duration,
             Syncs(track.video, es[i].flags))
  }

  /** Every entry becomes the sample it states, within the limits. */
  ghost predicate Expands(track: Track, file: File, signed: bool, es: seq<Entry>, p: Place, end: Place)
    requires file.Parsed()
  {
    var n, m := |es|, |p.acc.values|;
    (es != [] ==>
       m + n <= MaxSamples && p.acc.byteCount + SizesTo(es, n) <= MaxSampleBytes && p.decode + DurationsTo(es, n) <= MaxU64) &&
    (forall i | 0 <= i < n :: SoundAt(track, file, signed, es, i, p.cursor, p.decode)) &&
    end.cursor == p.cursor + SizesTo(es, n) && end.decode == p.decode + DurationsTo(es, n) &&
    end.acc.byteCount == p.acc.byteCount + SizesTo(es, n) && |end.acc.values| == m + n &&
    end.acc.values[..m] == p.acc.values &&
    forall i | 0 <= i < n :: end.acc.values[m + i] == SampleAt(track, file, signed, es, i, p.cursor, p.decode)
  }

  /** One more sample, as a row of the run adds it. */
  ghost predicate Grows(track: Track, file: File, signed: bool, e: Entry, p: Place, end: Place)
    requires file.Parsed()
  {
    Pushed(p.acc, track, file, p.cursor, e.size, p.decode, Shift(signed, e), e.duration, Syncs(track.video, e.flags)) ==
      Some(end.acc) &&
    end.cursor == p.cursor + e.size && end.decode == p.decode + e.duration <= MaxU64
  }

  lemma {:induction false} SumsAlike(es: seq<Entry>, more: seq<Entry>, k: nat)
    requires k <= |es|
    ensures SizesTo(es + more, k) == SizesTo(es, k) && DurationsTo(es + more, k) == DurationsTo(es, k)
  {
    if k > 0 {
      SumsAlike(es, more, k - 1);
    }
  }

  lemma SameAt(track: Track, file: File, signed: bool, es: seq<Entry>, e: Entry, i: nat, cursor: nat, decode: nat)
    requires file.Parsed() && i < |es|
    ensures SoundAt(track, file, signed, es + [e], i, cursor, decode) <==> SoundAt(track, file, signed, es, i, cursor, decode)
    ensures SoundAt(track, file, signed, es, i, cursor, decode) ==>
      SampleAt(track, file, signed, es + [e], i, cursor, decode) == SampleAt(track, file, signed, es, i, cursor, decode)
  {
    hide Sound, SampleOf, SizesTo, DurationsTo, Syncs, Shift;
    SumsAlike(es, [e], i);
    assert (es + [e])[i] == es[i];
  }

  lemma ExpandsMore(track: Track, file: File, signed: bool, es: seq<Entry>, e: Entry, p: Place, mid: Place, end: Place)
    requires file.Parsed() && Expands(track, file, signed, es, p, mid) && Grows(track, file, signed, e, mid, end)
    ensures Expands(track, file, signed, es + [e], p, end)
  {
    hide Sound, SampleOf, Syncs, Shift, SoundAt, SampleAt;
    var all, n, m := es + [e], |es|, |p.acc.values|;
    SumsAlike(es, [e], n);
    assert all[n] == e;
    LastAt(track, file, signed, es, e, p);
    forall i | 0 <= i < n
      ensures SoundAt(track, file, signed, all, i, p.cursor, p.decode)
      ensures end.acc.values[m + i] == SampleAt(track, file, signed, all, i, p.cursor, p.decode)
    {
      SameAt(track, file, signed, es, e, i, p.cursor, p.decode);
    }
    assert end.acc.values[..m] == mid.acc.values[..m];
  }

  lemma LastAt(track: Track, file: File, signed: bool, es: seq<Entry>, e: Entry, p: Place)
    requires file.Parsed()
    ensures var all, n := es + [e], |es|;
      var at, decode := p.cursor + SizesTo(es, n), p.decode + DurationsTo(es, n);
      (SoundAt(track, file, signed, all, n, p.cursor, p.decode) <==>
         Sound(track, file, at, e.size, decode, Shift(signed, e), e.duration)) &&
      (SoundAt(track, file, signed, all, n, p.cursor, p.decode) ==>
         SampleAt(track, file, signed, all, n, p.cursor, p.decode) ==
           SampleOf(track, file, at, e.size, decode, Shift(signed, e), e.duration, Syncs(track.video, e.flags)))
  {
    hide Sound, SampleOf, SizesTo, DurationsTo, Syncs, Shift;
    SumsAlike(es, [e], |es|);
    assert (es + [e])[|es|] == e;
  }

  lemma ExpandsLess(track: Track, file: File, signed: bool, es: seq<Entry>, e: Entry, p: Place, end: Place) returns (mid: Place)
    requires file.Parsed() && Expands(track, file, signed, es + [e], p, end)
    ensures Expands(track, file, signed, es, p, mid) && Grows(track, file, signed, e, mid, end)
  {
    hide Sound, SampleOf, Syncs, Shift, SoundAt, SampleAt;
    var all, n, m := es + [e], |es|, |p.acc.values|;
    SumsAlike(es, [e], n);
    assert all[n] == e;
    mid := Place(0, p.cursor + SizesTo(es, n), p.decode + DurationsTo(es, n),
                 Read(end.acc.values[..m + n], p.acc.byteCount + SizesTo(es, n)));
    LastAt(track, file, signed, es, e, p);
    forall i | 0 <= i < n
      ensures SoundAt(track, file, signed, es, i, p.cursor, p.decode)
      ensures mid.acc.values[m + i] == SampleAt(track, file, signed, es, i, p.cursor, p.decode)
    {
      SameAt(track, file, signed, es, e, i, p.cursor, p.decode);
      assert SoundAt(track, file, signed, all, i, p.cursor, p.decode);
    }
    assert mid.acc.values[..m] == end.acc.values[..m];
    assert SoundAt(track, file, signed, all, n, p.cursor, p.decode);
    assert end.acc.values == mid.acc.values + [end.acc.values[m + n]];
  }

  lemma RowRead(b: seq<Byte>, head: Head, file: File, flags: nat, signed: bool, own: nat, p: Place, e: Entry, end: Place)
    requires file.Parsed() && p.pos <= |b| && Stands(b, p.pos, EntryText(flags, e)) && EntrySettled(flags, e, own, head.defaults)
    requires e.shift <= MaxU32
    ensures RowOf(b, head, file, flags, signed, own, p) == Some(end) <==>
      Grows(head.track.track, file, signed, e, p, end) && end.pos == p.pos + |EntryText(flags, e)|
  {
    hide HasBit, Field, Stands, FieldSettled, EntryText, Take, Pushed, Signed32;
    var f8, f9, f10 := Field(HasBit(flags, 8), e.duration), Field(HasBit(flags, 9), e.size), Field(HasBit(flags, 10), e.flags);
    EntryStands(b, p.pos, flags, e);
    Taken(b, p.pos, HasBit(flags, 8), head.defaults.duration, e.duration);
    Taken(b, p.pos + |f8|, HasBit(flags, 9), head.defaults.size, e.size);
    Taken(b, p.pos + |f8| + |f9|, HasBit(flags, 10), own, e.flags);
    Taken(b, p.pos + |f8| + |f9| + |f10|, HasBit(flags, 11), 0, e.shift);
    Signs(signed, e);
  }

  lemma Signs(signed: bool, e: Entry)
    ensures Shift(signed, e) == if signed then Signed32(e.shift) else e.shift
  {
  }

  lemma RowWas(b: seq<Byte>, head: Head, file: File, flags: nat, signed: bool, own: nat, p: Place) returns (e: Entry)
    requires file.Parsed() && p.pos <= |b| && RowOf(b, head, file, flags, signed, own, p).Some?
    ensures Stands(b, p.pos, EntryText(flags, e)) && EntrySettled(flags, e, own, head.defaults) && e.shift <= MaxU32
  {
    hide HasBit, Field, Stands, FieldSettled, EntryText, Take, Pushed, Signed32;
    var duration := Take(b, p.pos, HasBit(flags, 8), head.defaults.duration).value.0;
    var p1 := p.pos + |Field(HasBit(flags, 8), duration)|;
    Taken(b, p.pos, HasBit(flags, 8), head.defaults.duration, duration);
    var size := Take(b, p1, HasBit(flags, 9), head.defaults.size).value.0;
    var p2 := p1 + |Field(HasBit(flags, 9), size)|;
    Taken(b, p1, HasBit(flags, 9), head.defaults.size, size);
    var sampleFlags := Take(b, p2, HasBit(flags, 10), own).value.0;
    var p3 := p2 + |Field(HasBit(flags, 10), sampleFlags)|;
    Taken(b, p2, HasBit(flags, 10), own, sampleFlags);
    var raw := Take(b, p3, HasBit(flags, 11), 0).value.0;
    Taken(b, p3, HasBit(flags, 11), 0, raw);
    e := Entry(duration, size, sampleFlags, raw);
    EntryStands(b, p.pos, flags, e);
    ShiftFits(HasBit(flags, 11), raw);
  }

  lemma ShiftFits(present: bool, v: nat)
    ensures FieldSettled(present, v, 0) ==> v <= MaxU32
  {
  }

  /** The last row of a run comes after the others. */
  lemma {:induction false} RowsLast(b: seq<Byte>, head: Head, file: File, flags: nat, signed: bool, first: nat, i: nat, k: nat,
                                    p: Place)
    requires file.Parsed() && i <= k
    ensures var before := RowsOf(b, head, file, flags, signed, first, i, k, p);
      RowsOf(b, head, file, flags, signed, first, i, k + 1, p) ==
        if before.None? then None
        else RowOf(b, head, file, flags, signed, if k == 0 then first else head.defaults.flags, before.value)
    decreases k - i
  {
    hide RowOf;
    if i < k {
      var next := RowOf(b, head, file, flags, signed, if i == 0 then first else head.defaults.flags, p);
      if next.Some? {
        RowsLast(b, head, file, flags, signed, first, i + 1, k, next.value);
      }
    } else {
      var r := RowOf(b, head, file, flags, signed, if k == 0 then first else head.defaults.flags, p);
      OneRow(b, head, file, flags, signed, first, k, p);
    }
  }

  lemma OneRow(b: seq<Byte>, head: Head, file: File, flags: nat, signed: bool, first: nat, k: nat, p: Place)
    requires file.Parsed()
    ensures RowsOf(b, head, file, flags, signed, first, k, k + 1, p) ==
      RowOf(b, head, file, flags, signed, if k == 0 then first else head.defaults.flags, p)
  {
    hide RowOf;
    var r := RowOf(b, head, file, flags, signed, if k == 0 then first else head.defaults.flags, p);
    if r.Some? {
      assert RowsOf(b, head, file, flags, signed, first, k + 1, k + 1, r.value) == r;
    }
  }

  /** These entries are read from here, and expand to this. */
  ghost predicate RunGives(b: seq<Byte>, head: Head, file: File, flags: nat, signed: bool, first: nat, p: Place, es: seq<Entry>,
                           end: Place)
    requires file.Parsed()
  {
    Stands(b, p.pos, EntriesText(flags, es)) && end.pos == p.pos + |EntriesText(flags, es)| &&
    EntriesSettled(flags, es, first, head.defaults) && Expands(head.track.track, file, signed, es, p, end)
  }

  lemma {:induction false} RowsRead(b: seq<Byte>, head: Head, file: File, flags: nat, signed: bool, first: nat, p: Place,
                                    es: seq<Entry>, end: Place)
    requires file.Parsed() && p.pos <= |b| && RunGives(b, head, file, flags, signed, first, p, es, end)
    ensures RowsOf(b, head, file, flags, signed, if HasBit(flags, 2) then first else head.defaults.flags, 0, |es|, p) == Some(end)
    decreases |es|
  {
    hide HasBit, EntryText, EntriesText, Stands, EntrySettled, Expands, Grows, RowOf;
    var own := if HasBit(flags, 2) then first else head.defaults.flags;
    if es == [] {
      NothingExpands(head.track.track, file, signed, p, end);
      NoRows(b, head, file, flags, signed, own, p);
      NoText(flags);
    } else {
      var n := |es| - 1;
      var init, e := es[..n], es[n];
      assert es == init + [e];
      EntriesLast(flags, init, e);
      StandsConcat(b, p.pos, EntriesText(flags, init), EntryText(flags, e));
      SettledLast(flags, init, e, first, head.defaults);
      var some := ExpandsLess(head.track.track, file, signed, init, e, p, end);
      var mid := some.(pos := p.pos + |EntriesText(flags, init)|);
      PosIsFree(head.track.track, file, signed, init, e, p, some, mid, end);
      RowsRead(b, head, file, flags, signed, first, p, init, mid);
      RowsLast(b, head, file, flags, signed, own, 0, n, p);
      Fits(b, p.pos, EntriesText(flags, init));
      SettledShift(flags, e, OwnFlags(flags, n, first, head.defaults.flags), head.defaults);
      RowRead(b, head, file, flags, signed, OwnFlags(flags, n, first, head.defaults.flags), mid, e, end);
    }
  }

  lemma NoText(flags: nat)
    ensures EntriesText(flags, []) == []
  {
  }

  lemma SettledShift(flags: nat, e: Entry, own: nat, d: Defaults)
    requires EntrySettled(flags, e, own, d)
    ensures e.shift <= MaxU32
  {
  }

  lemma NothingExpands(track: Track, file: File, signed: bool, p: Place, end: Place)
    requires file.Parsed()
    ensures Expands(track, file, signed, [], p, end) <==> end == p.(pos := end.pos)
  {
    if Expands(track, file, signed, [], p, end) {
      assert end.acc.values == end.acc.values[..|p.acc.values|];
    }
  }

  lemma NoRows(b: seq<Byte>, head: Head, file: File, flags: nat, signed: bool, own: nat, p: Place)
    requires file.Parsed()
    ensures RowsOf(b, head, file, flags, signed, own, 0, 0, p) == Some(p)
  {
  }

  /** Where the bytes are does not matter to what the samples are. */
  lemma PosIsFree(track: Track, file: File, signed: bool, es: seq<Entry>, e: Entry, p: Place, a: Place, b: Place, end: Place)
    requires file.Parsed() && b == a.(pos := b.pos)
    ensures Expands(track, file, signed, es, p, a) <==> Expands(track, file, signed, es, p, b)
    ensures Grows(track, file, signed, e, a, end) <==> Grows(track, file, signed, e, b, end)
  {
    hide SoundAt, SampleAt, Pushed;
  }

  lemma {:induction false} RowsWere(b: seq<Byte>, head: Head, file: File, flags: nat, signed: bool, first: nat, p: Place, n: nat)
    returns (es: seq<Entry>)
    requires file.Parsed() && p.pos <= |b| && (HasBit(flags, 2) ==> first <= MaxU32)
    requires RowsOf(b, head, file, flags, signed, if HasBit(flags, 2) then first else head.defaults.flags, 0, n, p).Some?
    ensures |es| == n
    ensures RunGives(b, head, file, flags, signed, first, p, es,
                     RowsOf(b, head, file, flags, signed, if HasBit(flags, 2) then first else head.defaults.flags, 0, n, p).value)
    decreases n
  {
    hide HasBit, EntryText, EntriesText, Stands, EntrySettled, Expands, Grows, RowOf;
    var own := if HasBit(flags, 2) then first else head.defaults.flags;
    es := [];
    if n == 0 {
      NoRows(b, head, file, flags, signed, own, p);
      NothingExpands(head.track.track, file, signed, p, p);
      NoText(flags);
      StandsNothing(b, p.pos);
      assert EntriesSettled(flags, [], first, head.defaults);
    } else {
      RowsLast(b, head, file, flags, signed, own, 0, n - 1, p);
      var init := RowsWere(b, head, file, flags, signed, first, p, n - 1);
      var mid := RowsOf(b, head, file, flags, signed, own, 0, n - 1, p).value;
      Fits(b, p.pos, EntriesText(flags, init));
      var of := OwnFlags(flags, n - 1, first, head.defaults.flags);
      var e := RowWas(b, head, file, flags, signed, of, mid);
      var end := RowOf(b, head, file, flags, signed, of, mid).value;
      RowRead(b, head, file, flags, signed, of, mid, e, end);
      es := init + [e];
      EntriesLast(flags, init, e);
      StandsConcat(b, p.pos, EntriesText(flags, init), EntryText(flags, e));
      SettledLast(flags, init, e, first, head.defaults);
      ExpandsMore(head.track.track, file, signed, init, e, p, mid, end);
    }
  }

  /** The payload of a trun whose samples these are, and where its bytes and its time end. */
  ghost predicate IsRun(b: seq<Byte>, head: Head, file: File, cursor: nat, decode: nat, acc: Read, end: Place,
                        version: Byte, flags: nat, es: seq<Entry>, offset: nat, first: nat)
    requires file.Parsed()
  {
    version <= 1 && flags < Pow256(3) && OnlyThese(flags, {0, 2, 8, 9, 10, 11}) && !(HasBit(flags, 2) && HasBit(flags, 10)) &&
    b == RunText(version, flags, es, offset, first) && EntriesSettled(flags, es, first, head.defaults) &&
    |es| + |acc.values| <= MaxSamples && (head.empty ==> es == []) && end.pos == |b| &&
    (if HasBit(flags, 0) then
       offset <= MaxU32 && 0 <= head.base + Signed32(offset) <= MaxU64 &&
       Expands(head.track.track, file, version == 1, es, Place(0, head.base + Signed32(offset), decode, acc), end)
     else Expands(head.track.track, file, version == 1, es, Place(0, cursor, decode, acc), end))
  }

  lemma RunExactly(b: seq<Byte>, head: Head, file: File, cursor: nat, decode: nat, acc: Read, end: Place)
    requires file.Parsed()
    ensures RunOf(b, head, file, cursor, decode, acc) == Some(end) <==>
      exists version: Byte, flags: nat, es: seq<Entry>, offset: nat, first: nat ::
        IsRun(b, head, file, cursor, decode, acc, end, version, flags, es, offset, first)
  {
    hide IsRun, RunOf;
    if RunOf(b, head, file, cursor, decode, acc) == Some(end) {
      RunWas(b, head, file, cursor, decode, acc, end);
    }
    if version: Byte, flags: nat, es: seq<Entry>, offset: nat, first: nat :|
       IsRun(b, head, file, cursor, decode, acc, end, version, flags, es, offset, first) {
      RunRead(b, head, file, cursor, decode, acc, end, version, flags, es, offset, first);
    }
  }

  /** Where the data of a run starts. */
  function StartOf(head: Head, flags: nat, offset: nat, cursor: nat): int {
    if HasBit(flags, 0) then head.base + Signed32(offset) else cursor
  }

  lemma RunWas(b: seq<Byte>, head: Head, file: File, cursor: nat, decode: nat, acc: Read, end: Place)
    requires file.Parsed() && RunOf(b, head, file, cursor, decode, acc) == Some(end)
    ensures exists version: Byte, flags: nat, es: seq<Entry>, offset: nat, first: nat ::
      IsRun(b, head, file, cursor, decode, acc, end, version, flags, es, offset, first)
  {
    hide HasBit, OnlyBits, OnlyThese, BE, FromBE, Take, RowsOf, EntriesText, Expands, Signed32, Stands, EntriesSettled, RunText;
    Pow256Values();
    var version: Byte, flags, count := b[0], FromBE(b[1..4]), FromBE(b[4..8]);
    FromBEBound(b[1..4]);
    FromBEBound(b[4..8]);
    RunMask(flags);
    var offset := Take(b, 8, HasBit(flags, 0), 0).value.0;
    Taken(b, 8, HasBit(flags, 0), 0, offset);
    var p := 8 + |Field(HasBit(flags, 0), offset)|;
    var first := Take(b, p, HasBit(flags, 2), head.defaults.flags).value.0;
    Taken(b, p, HasBit(flags, 2), head.defaults.flags, first);
    var from := Place(p + |Field(HasBit(flags, 2), first)|, StartOf(head, flags, offset, cursor), decode, acc);
    var es := RowsWere(b, head, file, flags, version == 1, first, from, count);
    RunStands(b, 0, version, flags, es, offset, first);
    StandsWhole(b, RunText(version, flags, es, offset, first));
    RunLength(version, flags, es, offset, first);
    FromIsFree(head.track.track, file, version == 1, es, from, from.(pos := 0), end);
    assert IsRun(b, head, file, cursor, decode, acc, end, version, flags, es, offset, first);
  }

  lemma RunLength(version: Byte, flags: nat, es: seq<Entry>, offset: nat, first: nat)
    ensures |RunText(version, flags, es, offset, first)| ==
      8 + |Field(HasBit(flags, 0), offset)| + |Field(HasBit(flags, 2), first)| + |EntriesText(flags, es)|
  {
    hide BE, HasBit, EntriesText, Field;
    LengthBE(3, flags);
    LengthBE(4, |es|);
  }

  lemma FromIsFree(track: Track, file: File, signed: bool, es: seq<Entry>, p: Place, q: Place, end: Place)
    requires file.Parsed() && q == p.(pos := q.pos)
    ensures Expands(track, file, signed, es, p, end) <==> Expands(track, file, signed, es, q, end)
  {
    hide SoundAt, SampleAt;
  }

  lemma RunRead(b: seq<Byte>, head: Head, file: File, cursor: nat, decode: nat, acc: Read, end: Place, version: Byte, flags: nat,
                es: seq<Entry>, offset: nat, first: nat)
    requires file.Parsed() && IsRun(b, head, file, cursor, decode, acc, end, version, flags, es, offset, first)
    ensures RunOf(b, head, file, cursor, decode, acc) == Some(end)
  {
    hide HasBit, OnlyBits, OnlyThese, BE, FromBE, Take, RowsOf, EntriesText, Expands, Signed32, Stands, EntriesSettled, RunText;
    Pow256Values();
    RunMask(flags);
    RunStands(b, 0, version, flags, es, offset, first);
    StandsWhole(b, RunText(version, flags, es, offset, first));
    RunLength(version, flags, es, offset, first);
    var zero := if HasBit(flags, 0) then offset else 0;
    SameText(HasBit(flags, 0), offset, zero);
    Fits(b, 8, Field(HasBit(flags, 0), offset));
    Taken(b, 8, HasBit(flags, 0), 0, zero);
    var p := 8 + |Field(HasBit(flags, 0), offset)|;
    var own := if HasBit(flags, 2) then first else head.defaults.flags;
    SameText(HasBit(flags, 2), first, own);
    FirstFits(flags, es, first, head.defaults);
    Fits(b, p, Field(HasBit(flags, 2), first));
    Taken(b, p, HasBit(flags, 2), head.defaults.flags, own);
    Owned(HasBit(flags, 0), zero, 0);
    Owned(HasBit(flags, 2), own, head.defaults.flags);
    var from := Place(p + |Field(HasBit(flags, 2), first)|, StartOf(head, flags, offset, cursor), decode, acc);
    FromIsFree(head.track.track, file, version == 1, es, from, from.(pos := 0), end);
    RowsRead(b, head, file, flags, version == 1, first, from, es, end);
  }

  lemma Owned(present: bool, v: nat, default_: nat)
    requires if present then v <= MaxU32 else v == default_
    ensures FieldSettled(present, v, default_)
  {
  }
}
