/**
 * Where the samples of a progressive track are and when they are shown: the
 * expansion of its tables by the LOC sample reader, and the CMAF segmenter's own
 * derivation of the sample offsets.
 */
module SampleLayout {
  import opened Bytes
  import opened SampleTables
  import opened LocEncoder

  const MaxSamples := 1000000
  const MaxSampleBytes := 512 * 1024 * 1024

  // ---- which chunk holds a sample

  /** The mapping index from `m` on, moved past every next entry that starts at or before this chunk. */
  function Advance(entries: seq<Mapping>, m: nat, chunk: nat): (r: nat)
    requires m < |entries|
    ensures m <= r < |entries|
    decreases |entries| - m
  {
    if m + 1 < |entries| && entries[m + 1].first <= chunk then Advance(entries, m + 1, chunk) else m
  }

  /** The mapping entry in force for a chunk; chunks count from 1. */
  function InForce(entries: seq<Mapping>, chunk: nat): (r: nat)
    requires entries != []
    ensures r < |entries|
  {
    if chunk == 0 then 0 else Advance(entries, InForce(entries, chunk - 1), chunk)
  }

  /** How many samples the first chunks hold. */
  function Before(entries: seq<Mapping>, chunks: nat): nat
    requires chunks > 0 ==> entries != []
  {
    if chunks == 0 then 0 else Before(entries, chunks - 1) + entries[InForce(entries, chunks)].count
  }

  /** The chunk of sample `i`, at most `c`. */
  function ChunkOf(entries: seq<Mapping>, i: nat, c: nat): (r: nat)
    requires entries != [] && c > 0
    ensures 0 < r <= c && Before(entries, r - 1) <= i
  {
    if c == 1 || Before(entries, c - 1) <= i then c else ChunkOf(entries, i, c - 1)
  }

  predicate Ordered(entries: seq<Mapping>) {
    entries != [] && entries[0].first == 1 &&
    forall j, k | 0 <= j < k < |entries| :: entries[j].first < entries[k].first
  }

  lemma {:induction false} AdvanceStops(entries: seq<Mapping>, m: nat, chunk: nat)
    requires m < |entries| && entries[m].first <= chunk
    ensures var r := Advance(entries, m, chunk);
      entries[r].first <= chunk && (r + 1 < |entries| ==> entries[r + 1].first > chunk)
    decreases |entries| - m
  {
    if m + 1 < |entries| && entries[m + 1].first <= chunk {
      AdvanceStops(entries, m + 1, chunk);
    }
  }

  /** The advancing index finds the last entry that starts at or before the chunk. */
  lemma {:induction false} InForceIsLast(entries: seq<Mapping>, chunk: nat)
    requires Ordered(entries) && chunk > 0
    ensures entries[InForce(entries, chunk)].first <= chunk
    ensures forall k | InForce(entries, chunk) < k < |entries| :: entries[k].first > chunk
  {
    if chunk > 1 {
      InForceIsLast(entries, chunk - 1);
    }
    var m := InForce(entries, chunk - 1);
    AdvanceStops(entries, m, chunk);
    var r := InForce(entries, chunk);
    if r + 1 < |entries| {
      assert forall k | r + 1 < k < |entries| :: entries[r + 1].first < entries[k].first;
    }
  }

  lemma {:induction false} BeforeGrows(entries: seq<Mapping>, a: nat, b: nat)
    requires a <= b && (b > 0 ==> entries != [])
    ensures Before(entries, a) <= Before(entries, b)
  {
    if a < b {
      BeforeGrows(entries, a, b - 1);
    }
  }

  /** A sample is in chunk `c` exactly when the chunks up to `c` hold it and those before do not. */
  lemma {:induction false} ChunkOfIs(entries: seq<Mapping>, i: nat, c: nat, last: nat)
    requires entries != [] && 0 < c <= last && Before(entries, c - 1) <= i < Before(entries, c)
    ensures ChunkOf(entries, i, last) == c
  {
    if c < last {
      BeforeGrows(entries, c, last - 1);
      ChunkOfIs(entries, i, c, last - 1);
    }
  }

  // ---- the layout the tables describe

  datatype Tables = Tables(sizes: seq<nat>, durations: seq<nat>, shifts: seq<int>, sync: seq<bool>,
                           entries: seq<Mapping>, chunks: seq<nat>)
  {
    predicate Matched() {
      |durations| == |sizes| && |shifts| == |sizes| && |sync| == |sizes| && (chunks != [] ==> entries != []) &&
      forall i | 0 <= i < |durations| :: durations[i] <= MaxU32
    }
  }

  /** The chunk's offset and the sizes of the samples before this one in the chunk. */
  function OffsetIn(chunks: seq<nat>, entries: seq<Mapping>, sizes: seq<nat>, c: nat, i: nat): (r: nat)
    requires entries != [] && 0 < c <= |chunks| && Before(entries, c - 1) <= i <= |sizes|
  {
    SumNonNegative(sizes[Before(entries, c - 1)..i]);
    chunks[c - 1] + Sum(sizes[Before(entries, c - 1)..i])
  }

  /** Where sample `i` starts in the file. */
  function Offset(chunks: seq<nat>, entries: seq<Mapping>, sizes: seq<nat>, i: nat): nat
    requires chunks != [] && entries != [] && i < |sizes|
  {
    OffsetIn(chunks, entries, sizes, ChunkOf(entries, i, |chunks|), i)
  }

  function OffsetOf(t: Tables, i: nat): nat
    requires t.Matched() && t.chunks != [] && i < |t.sizes|
  {
    Offset(t.chunks, t.entries, t.sizes, i)
  }

  function DecodeTime(t: Tables, i: nat): nat
    requires t.Matched() && i <= |t.sizes|
  {
    SumNonNegative(t.durations[..i]);
    Sum(t.durations[..i])
  }

  lemma SumStep(s: seq<int>, a: nat, i: nat)
    requires a <= i < |s|
    ensures Sum(s[a..i + 1]) == Sum(s[a..i]) + s[i]
  {
    assert s[a..i + 1][..i - a] == s[a..i];
  }

  lemma SumGrows(s: seq<nat>, i: nat)
    requires i <= |s|
    ensures Sum(s[..i]) <= Sum(s)
  {
    assert s[..i] + s[i..] == s;
    SumAppend(s[..i], s[i..]);
    SumNonNegative(s[i..]);
  }

  // ---- one sample

  /** The file and the payloads of its mdat boxes, as offset and size. */
  datatype File = File(bytes: seq<Byte>, media: seq<(nat, nat)>) {
    predicate Parsed() {
      |bytes| <= MaxU64 && forall m | m in media :: m.0 + m.1 <= |bytes|
    }

    predicate Holds(at: nat, size: nat) {
      exists k | 0 <= k < |media| :: media[k].0 <= at && at + size <= media[k].0 + media[k].1
    }
  }

  /** `inspect` reads the coded picture of a video sample: None for an exception, else whether it is an IDR. */
  datatype Track = Track(name: string, timescale: nat, video: bool, inspect: seq<Byte> -> Option<bool>)

  predicate Presentable(decode: nat, shift: int) {
    decode <= 0x7FFF_FFFF_FFFF_FFFF && decode + shift <= 0x7FFF_FFFF_FFFF_FFFF
  }

  /** One sample passes every check that does not depend on the samples before it. */
  predicate Sound(track: Track, file: File, at: nat, size: nat, decode: nat, shift: int, duration: int)
    requires file.Parsed()
  {
    && size > 0 && duration > 0 && file.Holds(at, size)
    && (track.video ==> track.inspect(file.bytes[at..at + size]).Some?)
    && Presentable(decode, shift)
  }

  function SampleOf(track: Track, file: File, at: nat, size: nat, decode: nat, shift: int, duration: nat,
                sync: bool): Sample
    requires at + size <= |file.bytes|
  {
    var data := file.bytes[at..at + size];
    Sample(track.name, track.timescale, decode, decode + shift, duration,
           sync && (track.video ==> track.inspect(data) == Some(true)), data)
  }

  class Samples {
    var values: seq<Sample>
    var byteCount: nat

    ghost predicate Valid()
      reads this
    {
      |values| <= MaxSamples && byteCount <= MaxSampleBytes
    }

    constructor ()
      ensures Valid() && values == [] && byteCount == 0
    {
      values, byteCount := [], 0;
    }

    method Push(track: Track, file: File, at: nat, size: nat, decode: nat, shift: int, duration: nat, sync: bool)
      returns (ok: bool)
      requires Valid() && file.Parsed()
      modifies this
      ensures Valid()
      ensures ok <==> |old(values)| < MaxSamples && old(byteCount) + size <= MaxSampleBytes &&
                      Sound(track, file, at, size, decode, shift, duration)
      ensures ok ==> at + size <= |file.bytes| && byteCount == old(byteCount) + size
      ensures ok ==> values == old(values) + [SampleOf(track, file, at, size, decode, shift, duration, sync)]
    {
      if |values| >= MaxSamples || size == 0 || duration == 0 { return false; }
      if size > MaxSampleBytes - byteCount { return false; }
      byteCount := byteCount + size;
      if size > MaxU64 - at { return false; }
      var end := at + size;
      var inside := false;
      for k := 0 to |file.media|
        invariant inside <==> exists j | 0 <= j < k ::
                    file.media[j].0 <= at && at + size <= file.media[j].0 + file.media[j].1
      {
        if at >= file.media[k].0 && end <= file.media[k].0 + file.media[k].1 {
          inside := true;
        }
      }
      if !inside || end > |file.bytes| { return false; }
      var data := file.bytes[at..end];
      var independent := sync;
      if track.video {
        var picture := track.inspect(data);
        if picture.None? { return false; }
        independent := sync && picture.value;
      }
      if decode > 0x7FFF_FFFF_FFFF_FFFF || (shift > 0 && decode > 0x7FFF_FFFF_FFFF_FFFF - shift) { return false; }
      values := values + [Sample(track.name, track.timescale, decode, decode + shift, duration, independent, data)];
      return true;
    }
  }

  // ---- the expansion

  predicate SampleSound(track: Track, file: File, t: Tables, i: nat)
    requires file.Parsed() && t.Matched() && i < |t.sizes|
  {
    t.chunks != [] &&
    Sound(track, file, OffsetOf(t, i), t.sizes[i], DecodeTime(t, i), t.shifts[i], t.durations[i])
  }

  /** The chunks hold exactly the samples, every one is sound, and their bytes fit the limit. */
  predicate Accepted(track: Track, file: File, t: Tables, held: nat)
    requires file.Parsed() && t.Matched()
  {
    && Before(t.entries, |t.chunks|) == |t.sizes|
    && held + Sum(t.sizes) <= MaxSampleBytes
    && forall i: nat | i < |t.sizes| :: SampleSound(track, file, t, i)
  }

  function SampleAt(track: Track, file: File, t: Tables, i: nat): Sample
    requires file.Parsed() && t.Matched() && i < |t.sizes| && SampleSound(track, file, t, i)
  {
    SampleOf(track, file, OffsetOf(t, i), t.sizes[i], DecodeTime(t, i), t.shifts[i], t.durations[i], t.sync[i])
  }

  /** The first `k` samples of the track. */
  function Expanded(track: Track, file: File, t: Tables, k: nat): (r: seq<Sample>)
    requires file.Parsed() && t.Matched() && k <= |t.sizes|
    requires forall i: nat | i < k :: SampleSound(track, file, t, i)
    ensures |r| == k
  {
    seq(k, i requires 0 <= i < k => SampleAt(track, file, t, i))
  }

  /** What the loop holds before sample `index`, the next one of chunk `c`. */
  ghost predicate Reached(track: Track, file: File, t: Tables, index: nat, was: seq<Sample>, held: nat,
                          now: seq<Sample>, count: nat, decode: nat)
    requires file.Parsed() && t.Matched() && index <= |t.sizes|
  {
    && (forall i: nat | i < index :: SampleSound(track, file, t, i))
    && now == was + Expanded(track, file, t, index)
    && count == held + Sum(t.sizes[..index])
    && decode == DecodeTime(t, index)
  }

  lemma OffsetStep(chunks: seq<nat>, entries: seq<Mapping>, sizes: seq<nat>, c: nat, index: nat)
    requires entries != [] && index < |sizes|
    requires 0 < c <= |chunks| && Before(entries, c - 1) <= index < Before(entries, c)
    ensures OffsetIn(chunks, entries, sizes, c, index) == Offset(chunks, entries, sizes, index)
    ensures OffsetIn(chunks, entries, sizes, c, index + 1) == Offset(chunks, entries, sizes, index) + sizes[index]
  {
    hide ChunkOf, Before, Sum;
    ChunkOfIs(entries, index, c, |chunks|);
    SumStep(sizes, Before(entries, c - 1), index);
  }

  lemma TotalsStep(t: Tables, index: nat)
    requires t.Matched() && index < |t.sizes|
    ensures Sum(t.sizes[..index + 1]) == Sum(t.sizes[..index]) + t.sizes[index]
    ensures DecodeTime(t, index + 1) == DecodeTime(t, index) + t.durations[index]
  {
    SumStep(t.sizes, 0, index);
    SumStep(t.durations, 0, index);
    assert t.sizes[..index + 1] == t.sizes[0..index + 1] && t.sizes[..index] == t.sizes[0..index];
    assert t.durations[..index + 1] == t.durations[0..index + 1] && t.durations[..index] == t.durations[0..index];
  }

  lemma ReachedStep(track: Track, file: File, t: Tables, index: nat, was: seq<Sample>, held: nat, now: seq<Sample>,
                    count: nat, decode: nat)
    requires file.Parsed() && t.Matched() && index < |t.sizes|
    requires Reached(track, file, t, index, was, held, now, count, decode)
    requires SampleSound(track, file, t, index)
    ensures Reached(track, file, t, index + 1, was, held, now + [SampleAt(track, file, t, index)],
              count + t.sizes[index], decode + t.durations[index])
  {
    hide SampleSound, SampleAt, DecodeTime, Sum;
    TotalsStep(t, index);
    assert Expanded(track, file, t, index + 1) ==
           Expanded(track, file, t, index) + [SampleAt(track, file, t, index)];
  }

  lemma NothingReached(track: Track, file: File, t: Tables, was: seq<Sample>, held: nat)
    requires file.Parsed() && t.Matched()
    ensures Reached(track, file, t, 0, was, held, was, held, 0)
    ensures Before(t.entries, 0) == 0 && (t.entries != [] ==> InForce(t.entries, 0) == 0)
  {
    assert t.sizes[..0] == [] && t.durations[..0] == [];
    assert was + Expanded(track, file, t, 0) == was;
  }

  /** Moving on to the next chunk. */
  lemma NextChunk(entries: seq<Mapping>, c: nat)
    requires entries != [] && c > 0
    ensures InForce(entries, c) == Advance(entries, InForce(entries, c - 1), c)
    ensures Before(entries, c) == Before(entries, c - 1) + entries[InForce(entries, c)].count
  {
  }

  lemma ChunkBegins(chunks: seq<nat>, entries: seq<Mapping>, sizes: seq<nat>, c: nat)
    requires entries != [] && 0 < c <= |chunks| && Before(entries, c - 1) <= |sizes|
    ensures OffsetIn(chunks, entries, sizes, c, Before(entries, c - 1)) == chunks[c - 1]
  {
  }

  lemma AllReached(track: Track, file: File, t: Tables, was: seq<Sample>, held: nat, now: seq<Sample>, count: nat,
                   decode: nat)
    requires file.Parsed() && t.Matched() && Reached(track, file, t, |t.sizes|, was, held, now, count, decode)
    requires count <= MaxSampleBytes && Before(t.entries, |t.chunks|) == |t.sizes|
    ensures Accepted(track, file, t, held)
    ensures now == was + Expanded(track, file, t, |t.sizes|) && count == held + Sum(t.sizes)
  {
    assert t.sizes[..|t.sizes|] == t.sizes;
  }

  // The samples that do not fit: the track is refused whichever sample shows it.

  lemma TooManyBytes(track: Track, file: File, t: Tables, index: nat, held: nat)
    requires file.Parsed() && t.Matched() && index < |t.sizes|
    requires held + Sum(t.sizes[..index]) + t.sizes[index] > MaxSampleBytes
    ensures !Accepted(track, file, t, held)
  {
    TotalsStep(t, index);
    SumGrows(t.sizes, index + 1);
  }

  lemma NotAllReached(track: Track, file: File, t: Tables, held: nat)
    requires file.Parsed() && t.Matched() && Before(t.entries, |t.chunks|) != |t.sizes|
    ensures !Accepted(track, file, t, held)
  {
  }

  /** What a refused sample says of the track, and how many samples there are when one is added. */
  lemma PushTells(track: Track, file: File, t: Tables, index: nat, was: seq<Sample>, held: nat, now: seq<Sample>,
                  count: nat, decode: nat)
    requires file.Parsed() && t.Matched() && index < |t.sizes| && t.chunks != []
    requires Reached(track, file, t, index, was, held, now, count, decode)
    ensures |now| == |was| + index && decode == DecodeTime(t, index)
    ensures SampleSound(track, file, t, index) ==> decode <= 0x7FFF_FFFF_FFFF_FFFF
    ensures SampleSound(track, file, t, index) ==> OffsetOf(t, index) + t.sizes[index] <= MaxU64
    ensures count + t.sizes[index] > MaxSampleBytes || !SampleSound(track, file, t, index) ==>
      !Accepted(track, file, t, held)
    ensures SampleSound(track, file, t, index) <==>
      Sound(track, file, OffsetOf(t, index), t.sizes[index], decode, t.shifts[index], t.durations[index])
    ensures SampleSound(track, file, t, index) ==>
      SampleAt(track, file, t, index) == SampleOf(track, file, OffsetOf(t, index), t.sizes[index], decode,
                                           t.shifts[index], t.durations[index], t.sync[index])
  {
    hide SampleOf, OffsetOf, Before;
    if count + t.sizes[index] > MaxSampleBytes {
      TooManyBytes(track, file, t, index, held);
    }
  }

  lemma ChunkTooLong(track: Track, file: File, t: Tables, c: nat, held: nat)
    requires file.Parsed() && t.Matched() && c <= |t.chunks| && Before(t.entries, c) > |t.sizes|
    ensures !Accepted(track, file, t, held)
  {
    BeforeGrows(t.entries, c, |t.chunks|);
  }

  /** Lays the samples of one track out over its chunks, after the samples already read. */
  method ExpandChunks(out: Samples, track: Track, file: File, t: Tables) returns (ok: bool)
    requires out.Valid() && file.Parsed() && t.Matched() && |t.sizes| <= MaxSamples - |out.values|
    modifies out
    ensures ok <==> Accepted(track, file, t, old(out.byteCount))
    ensures ok ==> out.Valid() && out.values == old(out.values) + Expanded(track, file, t, |t.sizes|)
    ensures ok ==> out.byteCount == old(out.byteCount) + Sum(t.sizes)
  {
    hide SampleSound, SampleAt, DecodeTime, Sum, Offset, OffsetIn, Expanded, Before, InForce, Reached, Accepted;
    hide Sound, SampleOf;
    ghost var was, held := out.values, out.byteCount;
    NothingReached(track, file, t, was, held);
    var index, mapping := 0, 0;
    var decode: nat := 0;
    for c := 1 to |t.chunks| + 1
      invariant out.Valid() && mapping == (if t.entries == [] then 0 else InForce(t.entries, c - 1))
      invariant index == Before(t.entries, c - 1) <= |t.sizes|
      invariant Reached(track, file, t, index, was, held, out.values, out.byteCount, decode)
    {
      NextChunk(t.entries, c);
      ChunkBegins(t.chunks, t.entries, t.sizes, c);
      var at := t.chunks[c - 1];
      while mapping + 1 < |t.entries| && t.entries[mapping + 1].first <= c
        invariant mapping < |t.entries|
        invariant Advance(t.entries, mapping, c) == InForce(t.entries, c)
      {
        mapping := mapping + 1;
      }
      if t.entries[mapping].count > |t.sizes| - index {
        ChunkTooLong(track, file, t, c, held);
        return false;
      }
      ghost var start := index;
      for j := 0 to t.entries[mapping].count
        invariant out.Valid() && index == start + j
        invariant at == OffsetIn(t.chunks, t.entries, t.sizes, c, index)
        invariant Reached(track, file, t, index, was, held, out.values, out.byteCount, decode)
      {
        OffsetStep(t.chunks, t.entries, t.sizes, c, index);
        ghost var now, count := out.values, out.byteCount;
        var pushed := out.Push(track, file, at, t.sizes[index], decode, t.shifts[index], t.durations[index],
                               t.sync[index]);
        PushTells(track, file, t, index, was, held, now, count, decode);
        if !pushed {
          return false;
        }
        // Neither of the two overflow checks that follow in the source can fire.
        assert at + t.sizes[index] <= MaxU64 && decode + t.durations[index] <= MaxU64;
        ReachedStep(track, file, t, index, was, held, now, count, decode);
        at := at + t.sizes[index];
        decode := decode + t.durations[index];
        index := index + 1;
      }
    }
    if index == |t.sizes| {
      AllReached(track, file, t, was, held, out.values, out.byteCount, decode);
    } else {
      NotAllReached(track, file, t, held);
    }
    return index == |t.sizes|;
  }

  // ---- from the boxes

  /** The payloads of the boxes of a sample table box. */
  datatype Boxes = Boxes(stsz: Option<seq<Byte>>, stts: Option<seq<Byte>>, ctts: Option<seq<Byte>>,
                         stss: Option<seq<Byte>>, stsc: Option<seq<Byte>>, stco: Option<seq<Byte>>,
                         co64: Option<seq<Byte>>)
  {
    predicate Complete() {
      stsz.Some? && stts.Some? && stsc.Some? && (stco.Some? || co64.Some?)
    }

    function ChunkBox(): seq<Byte>
      requires Complete()
    {
      if stco.Some? then stco.value else co64.value
    }
  }

  lemma WordBound(b: seq<Byte>, i: nat)
    requires 4 * i + 4 <= |b|
    ensures Word(b, i) <= MaxU32
  {
    FromBEBound(b[4 * i..4 * i + 4]);
    Pow256Values();
  }

  lemma {:induction false} UnsignedRuns(b: seq<Byte>, k: nat)
    requires 8 + 8 * k <= |b|
    ensures forall i | 0 <= i < Count(Runs(b, false, k)) :: 0 <= Expand(Runs(b, false, k))[i] <= MaxU32
  {
    if k > 0 {
      UnsignedRuns(b, k - 1);
      RunsStep(b, false, k - 1);
      WordBound(b, 3 + 2 * (k - 1));
    }
  }

  function Durations(values: seq<int>): (r: seq<nat>)
    ensures |r| == |values|
    ensures forall i | 0 <= i < |values| && values[i] >= 0 :: r[i] == values[i]
  {
    seq(|values|, i requires 0 <= i < |values| => if values[i] < 0 then 0 else values[i])
  }

  /** The tables of the boxes, None when the strict reader refuses one. */
  function TablesOf(boxes: Boxes, room: nat): (r: Option<Tables>)
    ensures r.Some? ==> r.value.Matched() && |r.value.sizes| <= room
  {
    if !boxes.Complete() || SizeTable(boxes.stsz.value, room).None? then None
    else
      var sizes := SizeTable(boxes.stsz.value, room).value;
      var durations := TimingTable(boxes.stts.value, |sizes|, false);
      var shifts := if boxes.ctts.None? then Some(Repeat(0, |sizes|)) else TimingTable(boxes.ctts.value, |sizes|, true);
      var sync := SyncTable(boxes.stss, |sizes|);
      var chunks := ChunkTable(boxes.ChunkBox(), boxes.stco.None?);
      if durations.None? || shifts.None? || sync.None? || chunks.None? ||
         MappingTable(boxes.stsc.value, |chunks.value|).None?
      then None
      else
        UnsignedRuns(boxes.stts.value, Word(boxes.stts.value, 1));
        Some(Tables(sizes, Durations(durations.value), shifts.value, sync.value,
                    MappingTable(boxes.stsc.value, |chunks.value|).value, chunks.value))
  }

  /** Reads one track of a progressive file. */
  method Progressive(out: Samples, track: Track, file: File, boxes: Boxes) returns (ok: bool)
    requires out.Valid() && file.Parsed()
    modifies out
    ensures ok <==> TablesOf(boxes, MaxSamples - |old(out.values)|).Some? &&
                    Accepted(track, file, TablesOf(boxes, MaxSamples - |old(out.values)|).value, old(out.byteCount))
    ensures ok ==>
      var t := TablesOf(boxes, MaxSamples - |old(out.values)|).value;
      out.Valid() && out.values == old(out.values) + Expanded(track, file, t, |t.sizes|) &&
      out.byteCount == old(out.byteCount) + Sum(t.sizes)
  {
    hide Accepted, Expanded, SizeTable, TimingTable, SyncTable, ChunkTable, MappingTable, Durations, Sum;
    var room := MaxSamples - |out.values|;
    if boxes.stsz.None? { return false; }
    var sizes := ReadSizes(boxes.stsz.value, room);
    if sizes.None? || boxes.stts.None? { return false; }
    var n := |sizes.value|;
    var durations := ReadTiming(boxes.stts.value, n, false);
    if durations.None? { return false; }
    var shifts := Some(Repeat(0, n));
    if boxes.ctts.Some? {
      shifts := ReadTiming(boxes.ctts.value, n, true);
      if shifts.None? { return false; }
    }
    var sync := ReadSync(boxes.stss, n);
    if sync.None? || (boxes.stco.None? && boxes.co64.None?) { return false; }
    var chunks := ReadChunks(if boxes.stco.Some? then boxes.stco.value else boxes.co64.value, boxes.stco.None?);
    if chunks.None? || boxes.stsc.None? { return false; }
    var entries := ReadMappings(boxes.stsc.value, |chunks.value|);
    if entries.None? { return false; }
    var t := Tables(sizes.value, Durations(durations.value), shifts.value, sync.value, entries.value, chunks.value);
    assert TablesOf(boxes, room) == Some(t);
    ok := ExpandChunks(out, track, file, t);
  }

  // ---- what an accepted table set says

  lemma {:induction false} OrderedFrom(b: seq<Byte>, k: nat, chunks: nat)
    requires 8 + 12 * k <= |b| && k > 0 && forall j | 0 <= j < k :: MappingFits(b, j, chunks)
    ensures Ordered(Mappings(b, k))
  {
    if k > 1 {
      OrderedFrom(b, k - 1, chunks);
      assert Mappings(b, k)[..k - 1] == Mappings(b, k - 1);
      assert MappingFits(b, k - 1, chunks);
      assert Mappings(b, k)[k - 2].first == Word(b, 3 * (k - 1) - 1);
    } else {
      assert MappingFits(b, 0, chunks);
    }
  }

  /** The chunk mapping of a table set that is read names, for each chunk, the last entry that starts at or before it. */
  lemma MappingIsLast(boxes: Boxes, room: nat, c: nat)
    requires TablesOf(boxes, room).Some? && 0 < c <= |TablesOf(boxes, room).value.chunks|
    ensures var entries := TablesOf(boxes, room).value.entries;
      entries[InForce(entries, c)].first <= c &&
      forall k | InForce(entries, c) < k < |entries| :: entries[k].first > c
  {
    hide SizeTable, TimingTable, SyncTable, ChunkTable;
    var b := boxes.stsc.value;
    OrderedFrom(b, Word(b, 1), |TablesOf(boxes, room).value.chunks|);
    InForceIsLast(TablesOf(boxes, room).value.entries, c);
  }

  /**
   * The samples of an accepted track: as many as the sizes, decode times that start
   * at 0 and follow on from one another, bytes inside one mdat, and chunks whose
   * first sample is at the chunk offset and whose next ones are back to back.
   */
  lemma ExpansionIsTheLayout(track: Track, file: File, t: Tables, held: nat, i: nat, c: nat)
    requires file.Parsed() && t.Matched() && Accepted(track, file, t, held) && i < |t.sizes|
    requires 0 < c <= |t.chunks| && Before(t.entries, c - 1) <= i < Before(t.entries, c)
    ensures OffsetOf(t, i) + t.sizes[i] <= |file.bytes| && file.Holds(OffsetOf(t, i), t.sizes[i])
    ensures var all := Expanded(track, file, t, |t.sizes|);
      |all| == Before(t.entries, |t.chunks|) && |all[i].bytes| == t.sizes[i] && all[i].duration == t.durations[i] &&
      all[i].decode == (if i == 0 then 0 else all[i - 1].decode + all[i - 1].duration) &&
      all[i].presentation == all[i].decode + t.shifts[i] &&
      all[i].bytes == file.bytes[OffsetOf(t, i)..OffsetOf(t, i) + t.sizes[i]] &&
      all[i].track == track.name && all[i].timescale == track.timescale &&
      (all[i].independent <==> t.sync[i] && (track.video ==> track.inspect(all[i].bytes) == Some(true)))
    ensures OffsetOf(t, i) ==
      if i == Before(t.entries, c - 1) then t.chunks[c - 1] else OffsetOf(t, i - 1) + t.sizes[i - 1]
  {
    hide Before, ChunkOf, OffsetIn;
    assert SampleSound(track, file, t, i);
    OffsetStep(t.chunks, t.entries, t.sizes, c, i);
    if i > 0 {
      TotalsStep(t, i - 1);
      assert SampleSound(track, file, t, i - 1);
    } else {
      assert t.durations[..0] == [];
    }
    if i == Before(t.entries, c - 1) {
      ChunkBegins(t.chunks, t.entries, t.sizes, c);
    } else {
      OffsetStep(t.chunks, t.entries, t.sizes, c, i - 1);
    }
  }

  /** A chunk adds the sample count of the last entry that starts at or before it. */
  lemma ChunkHolds(entries: seq<Mapping>, c: nat) returns (k: nat)
    requires Ordered(entries) && c > 0
    ensures k < |entries| && entries[k].first <= c && (forall j | k < j < |entries| :: entries[j].first > c)
    ensures Before(entries, 0) == 0 && Before(entries, c) == Before(entries, c - 1) + entries[k].count
  {
    InForceIsLast(entries, c);
    k := InForce(entries, c);
  }

  /** The sample lies in the payload of one mdat. */
  ghost predicate InMdat(file: File, at: nat, size: nat) {
    exists m | m in file.media :: m.0 <= at && at + size <= m.0 + m.1
  }

  /** What is asked of sample `i`, in numbers. */
  ghost predicate Sane(track: Track, file: File, t: Tables, i: nat)
    requires file.Parsed() && t.Matched() && t.chunks != [] && i < |t.sizes|
  {
    t.sizes[i] > 0 && t.durations[i] > 0 && InMdat(file, OffsetOf(t, i), t.sizes[i]) &&
    Sum(t.durations[..i]) < 0x8000_0000_0000_0000 && Sum(t.durations[..i]) + t.shifts[i] < 0x8000_0000_0000_0000 &&
    (track.video ==> track.inspect(file.bytes[OffsetOf(t, i)..][..t.sizes[i]]).Some?)
  }

  lemma InMdatExactly(file: File, at: nat, size: nat)
    requires file.Parsed()
    ensures InMdat(file, at, size) <==> file.Holds(at, size)
    ensures InMdat(file, at, size) ==> at + size <= |file.bytes|
  {
    if m :| m in file.media && m.0 <= at && at + size <= m.0 + m.1 {
      var k :| 0 <= k < |file.media| && file.media[k] == m;
    }
  }

  lemma SaneExactly(track: Track, file: File, t: Tables, i: nat)
    requires file.Parsed() && t.Matched() && t.chunks != [] && i < |t.sizes|
    requires InMdat(file, OffsetOf(t, i), t.sizes[i]) ==> OffsetOf(t, i) + t.sizes[i] <= |file.bytes|
    ensures Sane(track, file, t, i) <==> SampleSound(track, file, t, i)
  {
    hide OffsetOf, InMdat;
    InMdatExactly(file, OffsetOf(t, i), t.sizes[i]);
    if InMdat(file, OffsetOf(t, i), t.sizes[i]) {
      assert file.bytes[OffsetOf(t, i)..][..t.sizes[i]] == file.bytes[OffsetOf(t, i)..OffsetOf(t, i) + t.sizes[i]];
    }
  }

  /** A track is accepted exactly when its chunks hold as many samples as it has sizes, all of them are sane, and they fit. */
  lemma AcceptedExactly(track: Track, file: File, t: Tables, held: nat)
    requires file.Parsed() && t.Matched()
    ensures Accepted(track, file, t, held) <==>
      Before(t.entries, |t.chunks|) == |t.sizes| && held + Sum(t.sizes) <= 512 * 1024 * 1024 &&
      (t.sizes != [] ==> t.chunks != []) && forall i: nat | i < |t.sizes| :: t.chunks != [] && Sane(track, file, t, i)
  {
    hide Sane, OffsetOf, Before;
    if t.chunks != [] {
      forall i: nat | i < |t.sizes|
        ensures Sane(track, file, t, i) <==> SampleSound(track, file, t, i)
      {
        InMdatExactly(file, OffsetOf(t, i), t.sizes[i]);
        SaneExactly(track, file, t, i);
      }
    } else if t.sizes != [] {
      assert !SampleSound(track, file, t, 0);
    }
  }
}
