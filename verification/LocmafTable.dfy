/**
 * The LOCMAF field table: compaction of a chunk's effective values against the
 * track defaults, and the receiver's expansion (sections 11.1, 11.2 and 15.1 of
 * draft-einarsson-moq-locmaf-01).
 */
module LocmafTable {
  import opened Bytes
  import opened LocmafChunk

  /** Field values by field id; an even id holds exactly one value. */
  type Fields = map<nat, seq<int>>

  /** The field ids this encoder stores: all of the draft's up to 15 but the decode time (10). */
  predicate KnownField(id: nat) {
    1 <= id <= 15 && id != 10
  }

  /** What the encoder keeps of a chunk: its table, IV bytes, payload, pre-moof boxes and times. */
  datatype Parsed = Parsed(fields: Fields, ivs: seq<Byte>, payload: seq<Byte>, prefix: seq<Box>, bmdt: nat,
                           duration: nat)

  /** `equal`: all values from index `from` on are the same. */
  predicate Equal(v: seq<int>, from: nat) {
    forall i | from <= i < |v| :: v[i] == v[from]
  }

  function DurationFields(c: Context, durations: seq<int>): (f: Fields)
    requires durations != []
    ensures f.Keys <= {3, 4}
  {
    if !Equal(durations, 0) then map[3 := durations]
    else if durations[0] != c.duration then map[4 := [durations[0]]]
    else map[]
  }

  function SizeFields(c: Context, sizes: seq<int>): (f: Fields)
    requires sizes != []
    ensures f.Keys <= {1, 6}
  {
    if |sizes| <= 1 then map[]
    else if !Equal(sizes, 0) then map[1 := sizes[..|sizes| - 1]]
    else if sizes[0] != c.size then map[6 := [sizes[0]]]
    else map[]
  }

  function FlagFields(c: Context, flags: seq<int>): (f: Fields)
    requires flags != []
    ensures f.Keys <= {7, 8, 12}
  {
    if Equal(flags, 0) then
      if flags[0] != c.flags then map[8 := [flags[0]]] else map[]
    else if Equal(flags, 1) then
      if flags[1] != c.flags then map[12 := [flags[0]], 8 := [flags[1]]] else map[12 := [flags[0]]]
    else map[7 := flags]
  }

  function OffsetFields(offsets: seq<int>): (f: Fields)
    ensures f.Keys <= {5}
  {
    if exists i :: 0 <= i < |offsets| && offsets[i] != 0 then map[5 := offsets] else map[]
  }

  function SencFields(s: Senc): (f: Fields)
    ensures f.Keys <= {9, 11, 13, 15}
  {
    (if s.hasIvs then map[9 := []] else map[]) +
    match s.maps
    case None => map[]
    case Some(m) => map[11 := m.counts, 13 := m.clear, 15 := m.encrypted]
  }

  function SampleFields(c: Context, t: Table): (f: Fields)
    requires ValidTable(t, |t.sizes|)
    ensures f.Keys <= {1, 3, 4, 5, 6, 7, 8, 12}
  {
    if t.sizes == [] then map[]
    else DurationFields(c, t.durations) + SizeFields(c, t.sizes) + FlagFields(c, t.flags) + OffsetFields(t.offsets)
  }

  /** The table part of `parse`: each value is emitted only when the defaults do not give it. */
  function CompactFields(c: Context, e: Effective): Fields
    requires ValidEffective(e)
  {
    DescriptionFields(c, e.description) + CountField(|e.table.sizes|) + SampleFields(c, e.table) + SencFields(e.senc)
  }

  function Compact(c: Context, e: Effective): Parsed
    requires ValidEffective(e)
  {
    SumNonNegative(e.table.durations);
    Parsed(CompactFields(c, e), e.senc.ivs, e.payload, e.prefix, e.bmdt, Sum(e.table.durations))
  }

  /** `parse`: the chunk's effective values, compacted. */
  function Parse(top: seq<Box>, c: Context): Result<Parsed>
    requires c.Valid()
  {
    var e :- Read(top, c);
    Ok(Compact(c, e))
  }

  // ---- the receiver

  /** The one value of a scalar field, or its default. */
  function Scalar(fields: Fields, id: nat, default: int): int {
    if id in fields && fields[id] != [] then fields[id][0] else default
  }

  function ExpandDurations(c: Context, f: Fields, n: nat): seq<int> {
    if 3 in f then f[3] else Repeat(Scalar(f, 4, c.duration), n)
  }

  /** Section 11.2: listed sizes with the last one derived, a default, or the whole payload. */
  function ExpandSizes(c: Context, f: Fields, n: nat, payload: nat): Option<seq<int>> {
    if 1 in f then
      if |f[1]| + 1 != n || Sum(f[1]) > payload then None else Some(f[1] + [payload - Sum(f[1])])
    else if n == 0 then if payload == 0 then Some([]) else None
    else if 6 in f then if n * Scalar(f, 6, 0) == payload then Some(Repeat(Scalar(f, 6, 0), n)) else None
    else if n == 1 then Some([payload])
    else if c.size != 0 then if n * c.size == payload then Some(Repeat(c.size, n)) else None
    else if payload == 0 then Some(Repeat(0, n))
    else None
  }

  function ExpandFlags(c: Context, f: Fields, n: nat): seq<int> {
    if 7 in f then f[7]
    else if 12 in f && n > 0 then [Scalar(f, 12, 0)] + Repeat(Scalar(f, 8, c.flags), n - 1)
    else Repeat(Scalar(f, 8, c.flags), n)
  }

  /** The sample table a receiver rebuilds from the fields, the defaults and the payload length. */
  function ExpandTable(c: Context, f: Fields, payload: nat): Option<Table> {
    var n: int := Scalar(f, 14, -1);
    if n < 0 then None
    else match ExpandSizes(c, f, n, payload)
      case None => None
      case Some(sizes) =>
        Some(Table(ExpandDurations(c, f, n), sizes, ExpandFlags(c, f, n), if 5 in f then f[5] else Repeat(0, n)))
  }

  function ExpandDescription(c: Context, f: Fields): int {
    Scalar(f, 2, c.description)
  }

  /** IV bytes, whether there are any, and the subsample maps. */
  function ExpandSenc(f: Fields, ivs: seq<Byte>): Senc {
    Senc(if 9 in f then ivs else [], 9 in f,
         if 11 in f && 13 in f && 15 in f then Some(Subsamples(f[11], f[13], f[15])) else None)
  }

  lemma {:induction false} SumRepeat(n: nat, v: int)
    ensures Sum(Repeat(v, n)) == n * v
  {
    if n > 0 {
      assert Repeat(v, n)[..n - 1] == Repeat(v, n - 1);
      SumRepeat(n - 1, v);
    }
  }

  lemma EqualIsRepeat(v: seq<int>)
    requires v != [] && Equal(v, 0)
    ensures v == Repeat(v[0], |v|)
  {
  }

  /** Two tables agree at one field id. */
  ghost predicate SameAt(f: Fields, g: Fields, id: nat) {
    (id in f <==> id in g) && (id in f ==> f[id] == g[id])
  }

  lemma DurationsLossless(c: Context, d: seq<int>, f: Fields)
    requires d != [] && SameAt(f, DurationFields(c, d), 3) && SameAt(f, DurationFields(c, d), 4)
    ensures ExpandDurations(c, f, |d|) == d
  {
  }

  lemma SizesLossless(c: Context, s: seq<int>, f: Fields)
    requires s != [] && Fits32(s) && SameAt(f, SizeFields(c, s), 1) && SameAt(f, SizeFields(c, s), 6)
    ensures Sum(s) >= 0 && ExpandSizes(c, f, |s|, Sum(s)) == Some(s)
  {
    SumNonNegative(s);
    if |s| == 1 {
      LoneSize(s);
    } else if !Equal(s, 0) {
      LastSize(s);
    } else {
      SameSizes(c, s, f);
    }
  }

  lemma SameSizes(c: Context, s: seq<int>, f: Fields)
    requires |s| > 1 && Equal(s, 0) && Fits32(s) && 1 !in f
    requires if s[0] == c.size then 6 !in f else 6 in f && f[6] == [s[0]]
    ensures Sum(s) >= 0 && ExpandSizes(c, f, |s|, Sum(s)) == Some(s)
  {
    var n, v := |s|, s[0];
    SumNonNegative(s);
    EqualIsRepeat(s);
    SumRepeat(n, v);
    assert Scalar(f, 6, c.size) == v;
    if v == 0 {
      assert n * v == 0;
    }
  }

  lemma LoneSize(s: seq<int>)
    requires |s| == 1
    ensures s == [Sum(s)]
  {
    assert s[..0] == [];
    assert Sum(s) == Sum([]) + s[0];
  }

  lemma LastSize(s: seq<int>)
    requires |s| > 1 && Fits32(s)
    ensures var listed := s[..|s| - 1]; Sum(listed) <= Sum(s) && s == listed + [Sum(s) - Sum(listed)]
  {
    assert s == s[..|s| - 1] + [s[|s| - 1]];
  }

  lemma FlagsLossless(c: Context, v: seq<int>, f: Fields)
    requires v != []
    requires SameAt(f, FlagFields(c, v), 7) && SameAt(f, FlagFields(c, v), 8) && SameAt(f, FlagFields(c, v), 12)
    ensures ExpandFlags(c, f, |v|) == v
  {
    if !Equal(v, 0) && Equal(v, 1) {
      assert |v| > 1;
      assert v == [v[0]] + Repeat(v[1], |v| - 1);
    }
  }

  /** In a union of four tables with their own ids, each id shows the table that owns it. */
  lemma OwnerShows(a: Fields, b: Fields, c: Fields, d: Fields, id: nat)
    ensures id !in b && id !in c && id !in d ==> SameAt(a + b + c + d, a, id)
    ensures id !in a && id !in c && id !in d ==> SameAt(a + b + c + d, b, id)
    ensures id !in a && id !in b && id !in d ==> SameAt(a + b + c + d, c, id)
    ensures id !in a && id !in b && id !in c ==> SameAt(a + b + c + d, d, id)
  {
  }

  function CountField(n: nat): (f: Fields)
    ensures f.Keys == {14}
  {
    map[14 := [n]]
  }

  function DescriptionFields(c: Context, description: int): (f: Fields)
    ensures f.Keys <= {2}
  {
    if description != c.description then map[2 := [description]] else map[]
  }

  lemma KeysApart(a: set<nat>, b: set<nat>, s: set<nat>, d: set<nat>, id: nat)
    requires a <= {2} && b <= {14} && s <= {1, 3, 4, 5, 6, 7, 8, 12} && d <= {9, 11, 13, 15}
    ensures id == 2 ==> id !in b && id !in s && id !in d
    ensures id == 14 ==> id !in a && id !in s && id !in d
    ensures id in {1, 3, 4, 5, 6, 7, 8, 12} ==> id !in a && id !in b && id !in d
    ensures id in {9, 11, 13, 15} ==> id !in a && id !in b && id !in s
  {
  }

  lemma OwnFields(c: Context, e: Effective, id: nat)
    requires ValidEffective(e)
    ensures id == 2 ==> SameAt(CompactFields(c, e), DescriptionFields(c, e.description), id)
    ensures id == 14 ==> SameAt(CompactFields(c, e), CountField(|e.table.sizes|), id)
    ensures id in {1, 3, 4, 5, 6, 7, 8, 12} ==> SameAt(CompactFields(c, e), SampleFields(c, e.table), id)
    ensures id in {9, 11, 13, 15} ==> SameAt(CompactFields(c, e), SencFields(e.senc), id)
  {
    var a, b, s, d := DescriptionFields(c, e.description), CountField(|e.table.sizes|), SampleFields(c, e.table),
                      SencFields(e.senc);
    KeysApart(a.Keys, b.Keys, s.Keys, d.Keys, id);
    OwnerShows(a, b, s, d, id);
  }

  lemma OwnSampleFields(c: Context, t: Table, id: nat)
    requires ValidTable(t, |t.sizes|) && t.sizes != []
    ensures id in {3, 4} ==> SameAt(SampleFields(c, t), DurationFields(c, t.durations), id)
    ensures id in {1, 6} ==> SameAt(SampleFields(c, t), SizeFields(c, t.sizes), id)
    ensures id in {7, 8, 12} ==> SameAt(SampleFields(c, t), FlagFields(c, t.flags), id)
    ensures id == 5 ==> SameAt(SampleFields(c, t), OffsetFields(t.offsets), id)
  {
    OwnerShows(DurationFields(c, t.durations), SizeFields(c, t.sizes), FlagFields(c, t.flags),
               OffsetFields(t.offsets), id);
  }

  lemma TableLossless(c: Context, t: Table, f: Fields)
    requires ValidTable(t, |t.sizes|) && t.sizes != []
    requires forall id | id in {1, 3, 4, 5, 6, 7, 8, 12} :: SameAt(f, SampleFields(c, t), id)
    requires 14 in f && f[14] == [|t.sizes|]
    ensures Sum(t.sizes) >= 0 && ExpandTable(c, f, Sum(t.sizes)) == Some(t)
  {
    forall id | id in {1, 3, 4, 5, 6, 7, 8, 12}
      ensures SameAt(f, SampleFields(c, t), id)
      ensures id in {3, 4} ==> SameAt(f, DurationFields(c, t.durations), id)
      ensures id in {1, 6} ==> SameAt(f, SizeFields(c, t.sizes), id)
      ensures id in {7, 8, 12} ==> SameAt(f, FlagFields(c, t.flags), id)
      ensures id == 5 ==> SameAt(f, OffsetFields(t.offsets), id)
    {
      OwnSampleFields(c, t, id);
    }
    DurationsLossless(c, t.durations, f);
    SizesLossless(c, t.sizes, f);
    FlagsLossless(c, t.flags, f);
    OffsetsLossless(t.offsets, f);
  }

  lemma OffsetsLossless(v: seq<int>, f: Fields)
    requires SameAt(f, OffsetFields(v), 5)
    ensures (if 5 in f then f[5] else Repeat(0, |v|)) == v
  {
  }

  lemma SencLossless(s: Senc, f: Fields)
    requires forall id | id in {9, 11, 13, 15} :: SameAt(f, SencFields(s), id)
    requires !s.hasIvs ==> s.ivs == []
    ensures ExpandSenc(f, s.ivs) == s
  {
    assert SameAt(f, SencFields(s), 9) && SameAt(f, SencFields(s), 11);
    assert SameAt(f, SencFields(s), 13) && SameAt(f, SencFields(s), 15);
  }

  /**
   * Compaction is lossless: from the emitted fields, the track defaults and the
   * payload length a receiver gets back every duration, size, flag word and
   * composition offset, the sample description and the encryption data.
   */
  lemma CompactionLossless(c: Context, e: Effective)
    requires ValidEffective(e)
    ensures var p := Compact(c, e);
      ExpandTable(c, p.fields, |p.payload|) == Some(e.table) &&
      ExpandDescription(c, p.fields) == e.description &&
      ExpandSenc(p.fields, p.ivs) == e.senc
  {
    var f := CompactFields(c, e);
    forall id: nat
      ensures id in {1, 3, 4, 5, 6, 7, 8, 12} ==> SameAt(f, SampleFields(c, e.table), id)
      ensures id in {9, 11, 13, 15} ==> SameAt(f, SencFields(e.senc), id)
    {
      OwnFields(c, e, id);
    }
    OwnFields(c, e, 2);
    OwnFields(c, e, 14);
    if e.table.sizes == [] {
      EmptyTableLossless(c, e, f);
    } else {
      TableLossless(c, e.table, f);
    }
    SencLossless(e.senc, f);
  }

  lemma EmptyTableLossless(c: Context, e: Effective, f: Fields)
    requires ValidEffective(e) && e.table.sizes == [] && 14 in f && f[14] == [0]
    requires forall id | id in {1, 3, 4, 5, 6, 7, 8, 12} :: SameAt(f, map[], id)
    ensures ExpandTable(c, f, |e.payload|) == Some(e.table)
  {
    assert e.table == Table([], [], [], []) && e.payload == [];
    assert SameAt(f, map[], 1) && SameAt(f, map[], 3) && SameAt(f, map[], 5);
    assert SameAt(f, map[], 7) && SameAt(f, map[], 12);
    assert forall v :: Repeat(v, 0) == [];
  }
}
