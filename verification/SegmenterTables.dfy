/**
 * The CMAF segmenter's readers of the same sample tables. They check nothing, so a
 * table must hold the entries it announces; where the strict reader accepts the
 * boxes, these lemmas say which of their tables agree.
 */
module SegmenterTables {
  import opened Bytes
  import opened SampleTables
  import opened SampleLayout
  import opened LocEncoder

  // ---- what the loops compute

  /** The first `n` values, then zeros. */
  function Fitted(values: seq<int>, n: nat): (r: seq<int>)
    ensures |r| == n
  {
    if |values| >= n then values[..n] else values + Repeat(0, n - |values|)
  }

  function Shifts(ctts: Option<seq<Byte>>, n: nat): (r: seq<int>)
    requires ctts.Some? ==> |ctts.value| >= 8 && |ctts.value| >= 8 + 8 * Word(ctts.value, 1)
    ensures |r| == n
  {
    if ctts.None? then Repeat(0, n) else Fitted(Expand(Runs(ctts.value, true, Word(ctts.value, 1))), n)
  }

  function SyncFlags(stss: Option<seq<Byte>>, n: nat, video: bool): (r: seq<bool>)
    requires stss.Some? ==> |stss.value| >= 8 && |stss.value| >= 8 + 4 * Word(stss.value, 1)
    ensures |r| == n
  {
    if stss.None? then seq(n, i => !video)
    else seq(n, i requires 0 <= i < n => i + 1 in Entries(stss.value, Word(stss.value, 1)))
  }

  function Sizes(b: seq<Byte>): (r: seq<nat>)
    requires |b| >= 12 && (Word(b, 1) == 0 ==> |b| >= 12 + 4 * Word(b, 2))
  {
    seq(Word(b, 2), i requires 0 <= i < Word(b, 2) => if Word(b, 1) == 0 then Word(b, 3 + i) else Word(b, 1))
  }

  function ChunkOffsets(b: seq<Byte>, wide: bool): (r: seq<nat>)
    requires |b| >= 8 && |b| >= 8 + (if wide then 8 else 4) * Word(b, 1)
  {
    if wide then seq(Word(b, 1), j requires 0 <= j < Word(b, 1) => FromBE(b[8 + 8 * j..16 + 8 * j]))
    else Entries(b, Word(b, 1))
  }

  /** Every table holds the entries it announces; past its end the source reads out of bounds. */
  predicate Whole(boxes: Boxes) {
    && boxes.Complete()
    && |boxes.stsz.value| >= 12
    && (Word(boxes.stsz.value, 1) == 0 ==> |boxes.stsz.value| >= 12 + 4 * Word(boxes.stsz.value, 2))
    && |boxes.stts.value| >= 8 && |boxes.stts.value| >= 8 + 8 * Word(boxes.stts.value, 1)
    && (boxes.ctts.Some? ==> |boxes.ctts.value| >= 8 && |boxes.ctts.value| >= 8 + 8 * Word(boxes.ctts.value, 1))
    && (boxes.stss.Some? ==> |boxes.stss.value| >= 8 && |boxes.stss.value| >= 8 + 4 * Word(boxes.stss.value, 1))
    && |boxes.stsc.value| >= 8 && |boxes.stsc.value| >= 8 + 12 * Word(boxes.stsc.value, 1)
    && |boxes.ChunkBox()| >= 8
    && |boxes.ChunkBox()| >= 8 + (if boxes.stco.Some? then 4 else 8) * Word(boxes.ChunkBox(), 1)
  }

  /** The tables as the segmenter reads them. */
  function Lenient(boxes: Boxes, video: bool): Tables
    requires Whole(boxes)
  {
    var sizes := Sizes(boxes.stsz.value);
    Tables(sizes, Durations(Expand(Runs(boxes.stts.value, false, Word(boxes.stts.value, 1)))),
           Shifts(boxes.ctts, |sizes|), SyncFlags(boxes.stss, |sizes|, video),
           Mappings(boxes.stsc.value, Word(boxes.stsc.value, 1)), ChunkOffsets(boxes.ChunkBox(), boxes.stco.None?))
  }

  // ---- the loops

  method ParseSampleSizes(b: seq<Byte>) returns (sizes: seq<nat>)
    requires |b| >= 12 && (Word(b, 1) == 0 ==> |b| >= 12 + 4 * Word(b, 2))
    ensures sizes == Sizes(b)
  {
    if Word(b, 1) != 0 {
      return seq(Word(b, 2), i => Word(b, 1));
    }
    sizes := [];
    for i := 0 to Word(b, 2)
      invariant sizes == seq(i, k requires 0 <= k < i => Word(b, 3 + k))
    {
      sizes := sizes + [Word(b, 3 + i)];
    }
  }

  method ParseChunkOffsets(b: seq<Byte>, wide: bool) returns (offsets: seq<nat>)
    requires |b| >= 8 && |b| >= 8 + (if wide then 8 else 4) * Word(b, 1)
    ensures offsets == ChunkOffsets(b, wide)
  {
    offsets := [];
    for j := 0 to Word(b, 1)
      invariant offsets == if wide then seq(j, k requires 0 <= k < j => FromBE(b[8 + 8 * k..16 + 8 * k]))
                           else Entries(b, j)
    {
      offsets := offsets + [if wide then FromBE(b[8 + 8 * j..16 + 8 * j]) else Word(b, 2 + j)];
    }
  }

  method ParseChunkMap(b: seq<Byte>) returns (entries: seq<Mapping>)
    requires |b| >= 8 && |b| >= 8 + 12 * Word(b, 1)
    ensures entries == Mappings(b, Word(b, 1))
  {
    entries := [];
    for j := 0 to Word(b, 1)
      invariant entries == Mappings(b, j)
    {
      entries := entries + [Mapping(Word(b, 2 + 3 * j), Word(b, 3 + 3 * j))];
    }
  }

  method ParseTimingTable(b: seq<Byte>) returns (durations: seq<int>)
    requires |b| >= 8 && |b| >= 8 + 8 * Word(b, 1)
    ensures durations == Expand(Runs(b, false, Word(b, 1)))
  {
    durations := [];
    for j := 0 to Word(b, 1)
      invariant durations == Expand(Runs(b, false, j))
    {
      RunsStep(b, false, j);
      durations := durations + Repeat(Word(b, 3 + 2 * j), Word(b, 2 + 2 * j));
    }
  }

  /** One more run: its values follow those before, and those past the end are dropped. */
  lemma ExpandStep(b: seq<Byte>, signed: bool, j: nat)
    requires 8 + 8 * (j + 1) <= |b|
    ensures Expand(Runs(b, signed, j + 1)) ==
      Expand(Runs(b, signed, j)) + Repeat(RunValue(b, signed, j), Word(b, 2 + 2 * j))
  {
    RunsStep(b, signed, j);
  }

  /** The sample after these values and this much of a run, or the end. */
  function Reaches(before: seq<int>, run: nat, n: nat): nat {
    if |before| + run < n then |before| + run else n
  }

  lemma RunBegins(before: seq<int>, value: int, n: nat)
    ensures before + Repeat(value, 0) == before
  {
  }

  lemma FittedStep(before: seq<int>, value: int, run: nat, n: nat)
    requires Reaches(before, run, n) < n
    ensures Reaches(before, run + 1, n) == Reaches(before, run, n) + 1
    ensures Fitted(before + Repeat(value, run), n)[Reaches(before, run, n) := value] ==
      Fitted(before + Repeat(value, run + 1), n)
  {
  }

  lemma FittedFull(before: seq<int>, value: int, run: nat, all: nat, n: nat)
    requires run <= all && (run == all || Reaches(before, run, n) >= n)
    ensures Fitted(before + Repeat(value, run), n) == Fitted(before + Repeat(value, all), n)
    ensures Reaches(before, run, n) == Reaches(before + Repeat(value, all), 0, n)
  {
  }

  lemma NothingFitted(b: seq<Byte>, n: nat)
    requires |b| >= 8
    ensures Expand(Runs(b, true, 0)) == [] && Fitted([], n) == Repeat(0, n)
  {
  }

  method ParseCompositionOffsets(ctts: Option<seq<Byte>>, n: nat) returns (shifts: seq<int>)
    requires ctts.Some? ==> |ctts.value| >= 8 && |ctts.value| >= 8 + 8 * Word(ctts.value, 1)
    ensures shifts == Shifts(ctts, n)
  {
    shifts := Repeat(0, n);
    if ctts.None? {
      return;
    }
    var b := ctts.value;
    var index := 0;
    NothingFitted(b, n);
    for j := 0 to Word(b, 1)
      invariant shifts == Fitted(Expand(Runs(b, true, j)), n)
      invariant index == Reaches(Expand(Runs(b, true, j)), 0, n)
    {
      hide *;
      ExpandStep(b, true, j);
      ghost var before := Expand(Runs(b, true, j));
      var value, count, run := RunValue(b, true, j), Word(b, 2 + 2 * j), 0;
      RunBegins(before, value, n);
      while run < count && index < n
        invariant run <= count && |shifts| == n
        invariant index == Reaches(before, run, n)
        invariant shifts == Fitted(before + Repeat(value, run), n)
      {
        FittedStep(before, value, run, n);
        shifts := shifts[index := value];
        index, run := index + 1, run + 1;
      }
      FittedFull(before, value, run, count, n);
    }
  }

  method ParseSyncSamples(stss: Option<seq<Byte>>, n: nat, video: bool) returns (sync: seq<bool>)
    requires stss.Some? ==> |stss.value| >= 8 && |stss.value| >= 8 + 4 * Word(stss.value, 1)
    ensures sync == SyncFlags(stss, n, video)
  {
    sync := seq(n, i => !video);
    if stss.None? {
      return;
    }
    var b := stss.value;
    sync := seq(n, i => false);
    for j := 0 to Word(b, 1)
      invariant |sync| == n && forall i | 0 <= i < n :: sync[i] <==> i + 1 in Entries(b, j)
    {
      assert Entries(b, j + 1) == Entries(b, j) + [Word(b, 2 + j)];
      var sample := Word(b, 2 + j);
      if sample > 0 && sample <= |sync| {
        sync := sync[sample - 1 := true];
      }
    }
  }

  /**
   * Sample offsets by the segmenter, 64-bit sums and all; None when the chunks hold
   * too few samples. Chunks may hold more than there are.
   */
  method DeriveSampleOffsets(chunks: seq<nat>, entries: seq<Mapping>, sizes: seq<nat>) returns (r: Option<seq<nat>>)
    requires (chunks != [] ==> entries != []) && forall c | 0 <= c < |chunks| :: chunks[c] <= MaxU64
    ensures r.Some? <==> Before(entries, |chunks|) >= |sizes|
    ensures r.Some? ==> |r.value| == |sizes| && (sizes != [] ==> chunks != [])
    ensures r.Some? ==> forall i | 0 <= i < |sizes| :: r.value[i] == Offset(chunks, entries, sizes, i) % TwoTo64
  {
    hide Before, InForce, Offset, OffsetIn;
    var offsets: seq<nat> := [];
    var sample, mapping := 0, 0;
    EmptyStart(entries);
    for chunk := 0 to |chunks|
      invariant mapping == (if entries == [] then 0 else InForce(entries, chunk))
      invariant sample == (if Before(entries, chunk) < |sizes| then Before(entries, chunk) else |sizes|) == |offsets|
      invariant forall i | 0 <= i < sample :: offsets[i] == Offset(chunks, entries, sizes, i) % TwoTo64
      invariant sample > 0 ==> chunks != []
    {
      var c := chunk + 1;
      NextChunk(entries, c);
      while mapping + 1 < |entries| && entries[mapping + 1].first <= c
        invariant mapping < |entries|
        invariant Advance(entries, mapping, c) == InForce(entries, c)
      {
        mapping := mapping + 1;
      }
      var current := chunks[chunk];
      if sample < |sizes| {
        ChunkBegins(chunks, entries, sizes, c);
        SmallIsItself(current);
      }
      var inChunk := 0;
      while inChunk < entries[mapping].count && sample < |sizes|
        invariant inChunk <= entries[mapping].count && sample <= |sizes|
        invariant sample == (if Before(entries, chunk) + inChunk < |sizes| then Before(entries, chunk) + inChunk
                             else |sizes|) == |offsets|
        invariant sample < |sizes| ==> current == OffsetIn(chunks, entries, sizes, c, sample) % TwoTo64
        invariant forall i | 0 <= i < sample :: offsets[i] == Offset(chunks, entries, sizes, i) % TwoTo64
      {
        OffsetStep(chunks, entries, sizes, c, sample);
        WrappedSum(OffsetIn(chunks, entries, sizes, c, sample), sizes[sample]);
        offsets := offsets + [current];
        current := (current + sizes[sample]) % TwoTo64;
        sample, inChunk := sample + 1, inChunk + 1;
      }
    }
    if |offsets| != |sizes| {
      return None;
    }
    return Some(offsets);
  }

  lemma EmptyStart(entries: seq<Mapping>)
    ensures Before(entries, 0) == 0 && (entries != [] ==> InForce(entries, 0) == 0)
  {
  }

  lemma SmallIsItself(x: nat)
    requires x <= MaxU64
    ensures x == x % TwoTo64
  {
  }

  lemma WrappedSum(a: nat, b: nat)
    ensures (a % TwoTo64 + b) % TwoTo64 == (a + b) % TwoTo64
  {
    var q := a / TwoTo64;
    var r := (a % TwoTo64 + b) % TwoTo64;
    DivModUnique(a + b, TwoTo64, q + (a % TwoTo64 + b) / TwoTo64, r);
  }

  lemma OffsetsAre64Bit(b: seq<Byte>, wide: bool)
    requires |b| >= 8 && |b| >= 8 + (if wide then 8 else 4) * Word(b, 1)
    ensures forall c | 0 <= c < |ChunkOffsets(b, wide)| :: ChunkOffsets(b, wide)[c] <= MaxU64
  {
    Pow256Values();
    forall c | 0 <= c < |ChunkOffsets(b, wide)| ensures ChunkOffsets(b, wide)[c] <= MaxU64 {
      if wide {
        FromBEBound(b[8 + 8 * c..16 + 8 * c]);
      } else {
        WordBound(b, 2 + c);
      }
    }
  }

  /** The remux tables of a track and its sample offsets; None for an exception. */
  method ParseTrackTables(boxes: Boxes, video: bool) returns (r: Option<(Tables, seq<nat>)>)
    requires Whole(boxes)
    requires Word(boxes.ChunkBox(), 1) > 0 ==> Word(boxes.stsc.value, 1) > 0
    ensures var t := Lenient(boxes, video);
      r.Some? <==> |t.durations| == |t.sizes| && Before(t.entries, |t.chunks|) >= |t.sizes|
    ensures r.Some? ==> r.value.0 == Lenient(boxes, video) && |r.value.1| == |r.value.0.sizes|
    ensures r.Some? && r.value.0.sizes != [] ==> r.value.0.chunks != []
    ensures r.Some? ==> forall i | 0 <= i < |r.value.1| ::
      r.value.1[i] == Offset(r.value.0.chunks, r.value.0.entries, r.value.0.sizes, i) % TwoTo64
  {
    hide Expand, Runs, Mappings, Entries, Before, Offset;
    var sizes := ParseSampleSizes(boxes.stsz.value);
    var durations := ParseTimingTable(boxes.stts.value);
    if |sizes| != |durations| {
      return None;
    }
    var chunks := ParseChunkOffsets(boxes.ChunkBox(), boxes.stco.None?);
    var entries := ParseChunkMap(boxes.stsc.value);
    OffsetsAre64Bit(boxes.ChunkBox(), boxes.stco.None?);
    var offsets := DeriveSampleOffsets(chunks, entries, sizes);
    if offsets.None? {
      return None;
    }
    var shifts := ParseCompositionOffsets(boxes.ctts, |sizes|);
    var sync := ParseSyncSamples(boxes.stss, |sizes|, video);
    return Some((Tables(sizes, Durations(durations), shifts, sync, entries, chunks), offsets.value));
  }

  // ---- agreement with the strict reader

  /** The segmenter reads the boxes the strict reader accepts as the same tables, but for the two below. */
  lemma SameTables(boxes: Boxes, room: nat, video: bool)
    requires TablesOf(boxes, room).Some?
    ensures Whole(boxes)
    ensures var t := TablesOf(boxes, room).value;
      Lenient(boxes, video) == t.(shifts := Shifts(boxes.ctts, |t.sizes|), sync := SyncFlags(boxes.stss, |t.sizes|, video))
  {
    hide Expand, Count, Runs, Mappings;
  }

  /** Where the strict reader accepts a track, the segmenter derives the very same sample offsets, without wrapping. */
  lemma SameOffsets(track: Track, file: File, t: Tables, held: nat, i: nat)
    requires file.Parsed() && t.Matched() && Accepted(track, file, t, held) && i < |t.sizes|
    ensures Before(t.entries, |t.chunks|) >= |t.sizes| && t.chunks != []
    ensures Offset(t.chunks, t.entries, t.sizes, i) % TwoTo64 == OffsetOf(t, i)
  {
    hide Before, Offset;
    assert SampleSound(track, file, t, i);
  }

  lemma SignedIsUnsigned(v: nat)
    ensures Signed32(v) == v <==> v < 0x8000_0000
  {
  }

  lemma SameRepeat(a: int, b: int, n: nat)
    requires n > 0
    ensures Repeat(a, n) == Repeat(b, n) <==> a == b
  {
    assert Repeat(a, n)[0] == a && Repeat(b, n)[0] == b;
  }

  lemma {:induction false} ExpandSame(b: seq<Byte>, k: nat)
    requires 8 + 8 * k <= |b| && forall j | 0 <= j < k :: Word(b, 2 + 2 * j) > 0
    ensures Expand(Runs(b, true, k)) == Expand(Runs(b, false, k)) <==>
      forall j | 0 <= j < k :: Word(b, 3 + 2 * j) < 0x8000_0000
  {
    hide Word, Expand, Runs, Repeat;
    if k > 0 {
      var n, raw := Word(b, 2 + 2 * (k - 1)), Word(b, 3 + 2 * (k - 1));
      ExpandSame(b, k - 1);
      ExpandStep(b, true, k - 1);
      ExpandStep(b, false, k - 1);
      SameCount(b, k - 1);
      SameConcat(Expand(Runs(b, true, k - 1)), Expand(Runs(b, false, k - 1)), Repeat(Signed32(raw), n), Repeat(raw, n));
      SameRepeat(Signed32(raw), raw, n);
      SignedIsUnsigned(raw);
    } else {
      NoneExpanded(b);
    }
  }

  lemma NoneExpanded(b: seq<Byte>)
    requires |b| >= 8
    ensures Expand(Runs(b, true, 0)) == Expand(Runs(b, false, 0)) == []
  {
  }

  lemma {:induction false} SameCount(b: seq<Byte>, k: nat)
    requires 8 + 8 * k <= |b|
    ensures Count(Runs(b, true, k)) == Count(Runs(b, false, k))
  {
    if k > 0 {
      SameCount(b, k - 1);
      RunsStep(b, true, k - 1);
      RunsStep(b, false, k - 1);
    }
  }

  lemma SameConcat(a: seq<int>, b: seq<int>, x: seq<int>, y: seq<int>)
    requires |a| == |b|
    ensures a + x == b + y <==> a == b && x == y
  {
    if a + x == b + y {
      assert a == (a + x)[..|a|] && x == (a + x)[|a|..];
      assert b == (b + y)[..|b|] && y == (b + y)[|b|..];
    }
  }

  /**
   * The segmenter reads every composition offset as signed. It agrees with the strict
   * reader exactly when the box has version 1, or holds no offset from 2^31 up.
   */
  lemma SameShiftsExactly(b: seq<Byte>, n: nat)
    requires TimingTable(b, n, true).Some?
    ensures Shifts(Some(b), n) == TimingTable(b, n, true).value <==>
      b[0] == 1 || forall j | 0 <= j < Word(b, 1) :: Word(b, 3 + 2 * j) < 0x8000_0000
  {
    var k := Word(b, 1);
    SameCount(b, k);
    FittedWhole(Expand(Runs(b, true, k)));
    hide Fitted, FromBE;
    if b[0] == 0 {
      NoEmptyRun(b, k);
      ExpandSame(b, k);
    }
  }

  lemma FittedWhole(values: seq<int>)
    ensures Fitted(values, |values|) == values
  {
  }

  lemma NoEmptyRun(b: seq<Byte>, k: nat)
    requires 8 + 8 * k <= |b| && forall run | run in Runs(b, false, k) :: run.count > 0
    ensures forall j | 0 <= j < k :: Word(b, 2 + 2 * j) > 0
  {
    forall j | 0 <= j < k ensures Word(b, 2 + 2 * j) > 0 {
      assert Runs(b, false, k)[j] in Runs(b, false, k);
    }
  }

  /**
   * Without a stss box the strict reader takes every sample for a sync sample and
   * the segmenter takes no video sample for one; otherwise they agree.
   */
  lemma SameSyncExactly(stss: Option<seq<Byte>>, n: nat, video: bool)
    requires SyncTable(stss, n).Some?
    ensures SyncFlags(stss, n, video) == SyncTable(stss, n).value <==> stss.Some? || !video || n == 0
  {
    if stss.None? && video && n > 0 {
      assert !SyncFlags(stss, n, video)[0] && SyncTable(stss, n).value[0];
    }
  }
}
