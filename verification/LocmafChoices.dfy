/**
 * What the LOCMAF encoder chooses to send: a field only where the defaults do not give
 * its values, a delta header exactly where it may, and in a delta only what changed.
 */
module LocmafChoices {
  import opened Bytes
  import opened LocmafChunk
  import opened LocmafTable
  import opened LocmafWire
  import opened LocmafCodec
  import opened LocmafEncoder

  // ---- which fields

  /** Two values from index `from` on differ. */
  ghost predicate Varies(v: seq<int>, from: nat) {
    exists i, j :: from <= i < |v| && from <= j < |v| && v[i] != v[j]
  }

  lemma EqualExactly(v: seq<int>, from: nat)
    ensures Equal(v, from) <==> !Varies(v, from)
  {
  }

  /** A field is there exactly under this condition, and then holds these values. */
  ghost predicate Carries(f: Fields, id: nat, needed: bool, values: seq<int>) {
    (id in f <==> needed) && (id in f ==> f[id] == values)
  }

  function Once(v: seq<int>): seq<int> {
    if v == [] then [] else [v[0]]
  }

  /** Durations listed when they vary, once when they are not the default. */
  ghost predicate SaysDurations(c: Context, d: seq<int>, f: Fields) {
    Carries(f, 3, Varies(d, 0), d) && Carries(f, 4, !Varies(d, 0) && d != [] && d[0] != c.duration, Once(d))
  }

  /** Sizes listed, all but the last, when they vary; once when there are several of one size that is not the default. */
  ghost predicate SaysSizes(c: Context, s: seq<int>, f: Fields) {
    (1 in f <==> Varies(s, 0)) && (1 in f ==> |f[1]| + 1 == |s| && f[1] < s) &&
    Carries(f, 6, !Varies(s, 0) && |s| > 1 && s[0] != c.size, Once(s))
  }

  /** Flags listed when they vary behind the first; else the first when it differs, and the others' when not the default. */
  ghost predicate SaysFlags(c: Context, v: seq<int>, f: Fields) {
    Carries(f, 7, Varies(v, 1), v) && Carries(f, 12, !Varies(v, 1) && |v| > 1 && v[0] != v[1], Once(v)) &&
    (8 in f <==> !Varies(v, 1) && v != [] && v[|v| - 1] != c.flags) && (8 in f ==> f[8] == [v[|v| - 1]])
  }

  ghost predicate SaysOffsets(v: seq<int>, f: Fields) {
    Carries(f, 5, NotAllZero(v), v)
  }

  ghost predicate NotAllZero(v: seq<int>) {
    exists i :: 0 <= i < |v| && v[i] != 0
  }

  ghost predicate SaysProtection(s: Senc, f: Fields) {
    Carries(f, 9, s.hasIvs, []) &&
    Carries(f, 11, s.maps.Some?, if s.maps.Some? then s.maps.value.counts else []) &&
    Carries(f, 13, s.maps.Some?, if s.maps.Some? then s.maps.value.clear else []) &&
    Carries(f, 15, s.maps.Some?, if s.maps.Some? then s.maps.value.encrypted else [])
  }

  ghost predicate SaysWhatIsNeeded(c: Context, e: Effective, f: Fields) {
    f.Keys <= {1, 2, 3, 4, 5, 6, 7, 8, 9, 11, 12, 13, 14, 15} &&
    Carries(f, 2, e.description != c.description, [e.description]) && Carries(f, 14, true, [|e.table.sizes|]) &&
    SaysDurations(c, e.table.durations, f) && SaysSizes(c, e.table.sizes, f) && SaysFlags(c, e.table.flags, f) &&
    SaysOffsets(e.table.offsets, f) && SaysProtection(e.senc, f)
  }

  lemma DurationsNeeded(c: Context, d: seq<int>, f: Fields)
    requires d != [] && SameAt(f, DurationFields(c, d), 3) && SameAt(f, DurationFields(c, d), 4)
    ensures SaysDurations(c, d, f)
  {
    EqualExactly(d, 0);
  }

  lemma SizesNeeded(c: Context, s: seq<int>, f: Fields)
    requires s != [] && SameAt(f, SizeFields(c, s), 1) && SameAt(f, SizeFields(c, s), 6)
    ensures SaysSizes(c, s, f)
  {
    EqualExactly(s, 0);
  }

  lemma FlagsNeeded(c: Context, v: seq<int>, f: Fields)
    requires v != []
    requires SameAt(f, FlagFields(c, v), 7) && SameAt(f, FlagFields(c, v), 8) && SameAt(f, FlagFields(c, v), 12)
    ensures SaysFlags(c, v, f)
  {
    EqualExactly(v, 0);
    EqualExactly(v, 1);
    if Equal(v, 0) && |v| > 1 {
      assert v[1] == v[0] && v[|v| - 1] == v[0];
      assert forall i, j | 1 <= i < |v| && 1 <= j < |v| :: v[i] == v[0] && v[j] == v[0];
    } else if Equal(v, 1) && |v| > 1 {
      assert v[|v| - 1] == v[1];
    }
  }

  lemma OffsetsNeeded(v: seq<int>, f: Fields)
    requires SameAt(f, OffsetFields(v), 5)
    ensures SaysOffsets(v, f)
  {
  }

  /** The table sends each value exactly where the track's defaults do not give it. */
  lemma CompactSaysWhatIsNeeded(c: Context, e: Effective)
    requires ValidEffective(e)
    ensures SaysWhatIsNeeded(c, e, CompactFields(c, e))
  {
    hide CompactFields, SampleFields, SencFields, SaysDurations, SaysSizes, SaysFlags, SaysOffsets, SaysProtection;
    var f, t := CompactFields(c, e), e.table;
    KnownKeys(c, e);
    OwnFields(c, e, 2);
    OwnFields(c, e, 14);
    forall id | id in {1, 3, 4, 5, 6, 7, 8, 12}
      ensures SameAt(f, SampleFields(c, t), id)
    {
      OwnFields(c, e, id);
    }
    forall id | id in {9, 11, 13, 15}
      ensures SameAt(f, SencFields(e.senc), id)
    {
      OwnFields(c, e, id);
    }
    if t.sizes == [] {
      NoSamples(c, t, f);
    } else {
      TableNeeded(c, t, f);
    }
    ProtectionNeeded(e.senc, f);
  }

  lemma KnownKeys(c: Context, e: Effective)
    requires ValidEffective(e)
    ensures CompactFields(c, e).Keys <= {1, 2, 3, 4, 5, 6, 7, 8, 9, 11, 12, 13, 14, 15}
  {
    hide SampleFields, SencFields;
  }

  lemma NoSamples(c: Context, t: Table, f: Fields)
    requires ValidTable(t, |t.sizes|) && t.sizes == []
    requires forall id | id in {1, 3, 4, 5, 6, 7, 8, 12} :: SameAt(f, SampleFields(c, t), id)
    ensures SaysDurations(c, t.durations, f) && SaysSizes(c, t.sizes, f) && SaysFlags(c, t.flags, f)
    ensures SaysOffsets(t.offsets, f)
  {
    hide SaysDurations, SaysSizes, SaysFlags, SaysOffsets;
    forall id | id in {1, 3, 4, 5, 6, 7, 8, 12}
      ensures id !in f
    {
      assert SameAt(f, SampleFields(c, t), id);
    }
    NothingToSay(c, f);
  }

  lemma NothingToSay(c: Context, f: Fields)
    requires 1 !in f && 3 !in f && 4 !in f && 5 !in f && 6 !in f && 7 !in f && 8 !in f && 12 !in f
    ensures SaysDurations(c, [], f) && SaysSizes(c, [], f) && SaysFlags(c, [], f) && SaysOffsets([], f)
  {
  }

  lemma TableNeeded(c: Context, t: Table, f: Fields)
    requires ValidTable(t, |t.sizes|) && t.sizes != []
    requires forall id | id in {1, 3, 4, 5, 6, 7, 8, 12} :: SameAt(f, SampleFields(c, t), id)
    ensures SaysDurations(c, t.durations, f) && SaysSizes(c, t.sizes, f) && SaysFlags(c, t.flags, f)
    ensures SaysOffsets(t.offsets, f)
  {
    hide DurationFields, SizeFields, FlagFields, OffsetFields, SampleFields, SaysDurations, SaysSizes, SaysFlags, SaysOffsets;
    forall id | id in {1, 3, 4, 5, 6, 7, 8, 12}
      ensures SameAt(f, SampleFields(c, t), id)
      ensures id in {3, 4} ==> SameAt(f, DurationFields(c, t.durations), id)
      ensures id in {1, 6} ==> SameAt(f, SizeFields(c, t.sizes), id)
      ensures id in {7, 8, 12} ==> SameAt(f, FlagFields(c, t.flags), id)
      ensures id == 5 ==> SameAt(f, OffsetFields(t.offsets), id)
    {
      OwnSampleFields(c, t, id);
    }
    DurationsNeeded(c, t.durations, f);
    SizesNeeded(c, t.sizes, f);
    FlagsNeeded(c, t.flags, f);
    OffsetsNeeded(t.offsets, f);
  }

  lemma ProtectionNeeded(s: Senc, f: Fields)
    requires forall id | id in {9, 11, 13, 15} :: SameAt(f, SencFields(s), id)
    ensures SaysProtection(s, f)
  {
    assert SameAt(f, SencFields(s), 9) && SameAt(f, SencFields(s), 11);
    assert SameAt(f, SencFields(s), 13) && SameAt(f, SencFields(s), 15);
  }

  // ---- which entries

  /**
   * A full header carries every field and the base decode time. A delta header carries
   * neither the time nor what the receiver has: the fields that are new or changed, the
   * vectors if they changed, and the deletion list if some field is gone.
   */
  lemma BlockExactly(s: State, p: Parsed, full: bool, id: nat)
    requires s.Valid() && ValidParsed(p)
    ensures id in BlockOf(s, p, full) <==>
      if full then id in p.fields || id == 10
      else if id == 27 then exists k: nat :: k in s.previous && k !in p.fields
      else
        id in p.fields &&
        (id !in s.previous || (if id == 9 then p.ivs != s.ivs else p.fields[id] != s.previous[id]))
  {
    hide RemovedIds;
    assert 10 !in p.fields && 27 !in p.fields;
    var removed := RemovedIds(s.previous, p.fields, 0);
    forall k: nat
      ensures k in removed <==> k < 28 && k in s.previous && k !in p.fields
    {
      RemovedExactly(s.previous, p.fields, 0, k);
    }
    if removed != [] {
      assert removed[0] in removed;
    }
    if k: nat :| k in s.previous && k !in p.fields {
      assert k in removed;
    }
  }

  // ---- full or delta, over runs

  ghost function After(c: Context, calls: seq<Call>): (s: State)
    requires c.Valid()
    ensures s.Valid()
  {
    if calls == [] then Fresh
    else
      var s := After(c, calls[..|calls| - 1]);
      match calls[|calls| - 1]
      case Reset => Cleared(s)
      case Encode(chunk, group, number, force) =>
        var r := Step(c, s, chunk, group, number, force);
        if r.Ok? then r.value.1 else s
  }

  /** The chunk sent last, and where; none before the first, after a reset, and after raw boxes. */
  datatype Sent = Nothing | Sent(media: Media, group: nat, number: nat)

  ghost function LastSent(c: Context, calls: seq<Call>): Sent
    requires c.Valid()
  {
    if calls == [] then Nothing
    else
      match calls[|calls| - 1]
      case Reset => Nothing
      case Encode(chunk, group, number, _) =>
        var m := Meaning(c, chunk);
        if m.None? then LastSent(c, calls[..|calls| - 1])
        else if m.value.RawMedia? then Nothing
        else Sent(m.value, group, number)
  }

  /** The next object of the same group, which starts where the chunk sent last ends. */
  ghost predicate Continues(last: Sent, m: Media, group: nat, number: nat) {
    last.Sent? && last.media.Chunk? && m.Chunk? && group == last.group && number == last.number + 1 &&
    last.number != MaxU64 && m.bmdt == last.media.bmdt + Sum(last.media.table.durations) <= MaxU64
  }

  ghost predicate Remembers(s: State, last: Sent) {
    (s.anchored <==> last.Sent?) &&
    (last.Sent? ==>
       last.media.Chunk? && s.group == last.group && s.number == last.number && s.bmdt == last.media.bmdt &&
       s.duration == Sum(last.media.table.durations))
  }

  lemma {:induction false} RunRemembers(c: Context, calls: seq<Call>)
    requires c.Valid()
    ensures Remembers(After(c, calls), LastSent(c, calls))
  {
    hide Step, Meaning, Admit, Read;
    if calls != [] {
      var before := calls[..|calls| - 1];
      RunRemembers(c, before);
      match calls[|calls| - 1] {
        case Reset =>
        case Encode(chunk, group, number, force) =>
          StepRemembers(c, After(c, before), chunk, group, number, force);
      }
    }
  }

  lemma StepRemembers(c: Context, s: State, chunk: seq<Byte>, group: nat, number: nat, force: bool)
    requires c.Valid() && s.Valid()
    ensures var r, m := Step(c, s, chunk, group, number, force), Meaning(c, chunk);
      (r.Ok? <==> m.Some?) &&
      (m.Some? && m.value.RawMedia? ==> !r.value.1.anchored) &&
      (m.Some? && m.value.Chunk? ==> Remembers(r.value.1, Sent(m.value, group, number)))
  {
    hide Admit, Read, CompactFields, NeedsFull, BlockOf, WriteObject;
    if Admit(chunk).Ok? && Read(Admit(chunk).value, c).Ok? {
      SumNonNegative(Read(Admit(chunk).value, c).value.table.durations);
    }
  }

  /**
   * Over every run: an accepted chunk is sent raw if it means raw boxes, and else under a
   * delta header exactly when a full one was not asked for and it continues the chunk
   * sent last.
   */
  lemma KindExactly(c: Context, calls: seq<Call>, chunk: seq<Byte>, group: nat, number: nat, force: bool)
    requires c.Valid() && Meaning(c, chunk).Some?
    ensures var r, m := Step(c, After(c, calls), chunk, group, number, force), Meaning(c, chunk).value;
      r.Ok? && ReadObject(r.value.0).Some? &&
      match ReadObject(r.value.0).value
      case RawBoxes(bytes) => m == RawMedia(bytes) && bytes == chunk
      case Header(_, full, _, _) => m.Chunk? && (!full <==> !force && Continues(LastSent(c, calls), m, group, number))
  {
    hide Admit, Read, CompactFields, BlockOf, WriteObject, ReadObject, LastSent, After;
    var s := After(c, calls);
    RunRemembers(c, calls);
    var top := Admit(chunk).value;
    match Read(top, c) {
      case Err(_) =>
        RawRoundTrip(chunk);
      case Ok(e) =>
        CompactIsParsed(c, e);
        var p := Compact(c, e);
        var full := NeedsFull(s, p, group, number, force);
        FullExactly(s, LastSent(c, calls), p, Meaning(c, chunk).value, group, number, force);
        ObjectRoundTrip(p.prefix, full, BlockOf(s, p, full), p.payload);
    }
  }

  lemma FullExactly(s: State, last: Sent, p: Parsed, m: Media, group: nat, number: nat, force: bool)
    requires Remembers(s, last) && m.Chunk? && p.bmdt == m.bmdt && s.bmdt <= MaxU64
    ensures !NeedsFull(s, p, group, number, force) <==> !force && Continues(last, m, group, number)
  {
  }
}
