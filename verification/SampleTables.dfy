/**
 * The sample tables of a progressive MP4 track. The strict reader of the LOC path
 * and the lenient one of the CMAF segmenter read the same boxes; each table is
 * specified by the words its payload must hold.
 */
module SampleTables {
  import opened Bytes

  // ---- the words of a table

  function Word(b: seq<Byte>, i: nat): nat
    requires 4 * i + 4 <= |b|
  {
    FromBE(b[4 * i..4 * i + 4])
  }

  datatype Run = Run(count: nat, value: int)

  function Count(runs: seq<Run>): nat {
    if runs == [] then 0 else Count(runs[..|runs| - 1]) + runs[|runs| - 1].count
  }

  /** One value per sample. */
  function Expand(runs: seq<Run>): (r: seq<int>)
    ensures |r| == Count(runs)
  {
    if runs == [] then [] else Expand(runs[..|runs| - 1]) + Repeat(runs[|runs| - 1].value, runs[|runs| - 1].count)
  }

  lemma {:induction false} CountPrefix(runs: seq<Run>, j: nat)
    requires j <= |runs|
    ensures Count(runs[..j]) <= Count(runs)
  {
    if j < |runs| {
      CountPrefix(runs[..|runs| - 1], j);
      assert runs[..|runs| - 1][..j] == runs[..j];
    } else {
      assert runs[..j] == runs;
    }
  }

  /** The first `k` runs of a timing table, whose values are signed or not. */
  function Runs(b: seq<Byte>, signed: bool, k: nat): (r: seq<Run>)
    requires 8 + 8 * k <= |b|
    ensures |r| == k
  {
    seq(k, j requires 0 <= j < k =>
      Run(Word(b, 2 + 2 * j), if signed then Signed32(Word(b, 3 + 2 * j)) else Word(b, 3 + 2 * j)))
  }

  lemma RunsStep(b: seq<Byte>, signed: bool, k: nat)
    requires 8 + 8 * (k + 1) <= |b|
    ensures Runs(b, signed, k + 1)[..k] == Runs(b, signed, k)
  {
  }

  // ---- what the strict reader accepts, and what it reads

  predicate TimingAccepted(b: seq<Byte>, n: nat, composition: bool) {
    && |b| >= 8
    && b[0] <= (if composition then 1 else 0) && FromBE(b[1..4]) == 0
    && |b| == 8 + 8 * Word(b, 1)
    && (forall run | run in Runs(b, b[0] == 1, Word(b, 1)) :: run.count > 0)
    && Count(Runs(b, b[0] == 1, Word(b, 1))) == n
  }

  /** The stts durations or ctts offsets, one per sample. */
  function TimingTable(b: seq<Byte>, n: nat, composition: bool): (r: Option<seq<int>>)
    ensures r.Some? ==> |r.value| == n
  {
    if TimingAccepted(b, n, composition) then Some(Expand(Runs(b, b[0] == 1, Word(b, 1)))) else None
  }

  /** The stsz sizes, when there is room for so many samples. */
  function SizeTable(b: seq<Byte>, room: nat): Option<seq<nat>> {
    if |b| < 12 || Word(b, 0) != 0 || Word(b, 2) > room ||
       |b| != 12 + (if Word(b, 1) == 0 then 4 * Word(b, 2) else 0)
    then None
    else Some(seq(Word(b, 2), i requires 0 <= i < Word(b, 2) => if Word(b, 1) == 0 then Word(b, 3 + i) else Word(b, 1)))
  }

  /** The entries of a stss or stco box. */
  function Entries(b: seq<Byte>, k: nat): (r: seq<nat>)
    requires 8 + 4 * k <= |b|
    ensures |r| == k
  {
    seq(k, j requires 0 <= j < k => Word(b, 2 + j))
  }

  /** Entry `j` of a stss box is above the one before it and names a sample. */
  predicate EntryFits(b: seq<Byte>, j: nat, n: nat)
    requires 8 + 4 * (j + 1) <= |b|
  {
    (if j == 0 then 0 else Word(b, 1 + j)) < Word(b, 2 + j) <= n
  }

  /** Which samples a stss box names; without one every sample is a sync sample. */
  function SyncTable(stss: Option<seq<Byte>>, n: nat): (r: Option<seq<bool>>)
    ensures r.Some? ==> |r.value| == n
  {
    if stss.None? then Some(seq(n, i => true))
    else
      var b := stss.value;
      if |b| < 8 || Word(b, 0) != 0 || |b| != 8 + 4 * Word(b, 1) ||
         exists j | 0 <= j < Word(b, 1) :: !EntryFits(b, j, n)
      then None
      else Some(seq(n, i requires 0 <= i < n => i + 1 in Entries(b, Word(b, 1))))
  }

  /** The stco offsets, or the co64 ones. */
  function ChunkTable(b: seq<Byte>, wide: bool): Option<seq<nat>> {
    if |b| < 8 || Word(b, 0) != 0 || |b| != 8 + (if wide then 8 else 4) * Word(b, 1) then None
    else if wide then Some(seq(Word(b, 1), j requires 0 <= j < Word(b, 1) => FromBE(b[8 + 8 * j..16 + 8 * j])))
    else Some(Entries(b, Word(b, 1)))
  }

  /** From this chunk on, chunks hold this many samples. */
  datatype Mapping = Mapping(first: nat, count: nat)

  function Mappings(b: seq<Byte>, k: nat): (r: seq<Mapping>)
    requires 8 + 12 * k <= |b|
    ensures |r| == k
  {
    seq(k, j requires 0 <= j < k => Mapping(Word(b, 2 + 3 * j), Word(b, 3 + 3 * j)))
  }

  /** Entry `j` of a stsc box: the first one starts at chunk 1, later ones further on, and none past the last chunk. */
  predicate MappingFits(b: seq<Byte>, j: nat, chunks: nat)
    requires 8 + 12 * (j + 1) <= |b|
  {
    (if j == 0 then Word(b, 2) == 1 else Word(b, 3 * j - 1) < Word(b, 2 + 3 * j)) &&
    Word(b, 2 + 3 * j) <= chunks && Word(b, 3 + 3 * j) > 0 && Word(b, 4 + 3 * j) == 1
  }

  function MappingTable(b: seq<Byte>, chunks: nat): Option<seq<Mapping>> {
    if |b| < 8 || Word(b, 0) != 0 || |b| != 8 + 12 * Word(b, 1) || (chunks > 0 && Word(b, 1) == 0) ||
       exists j | 0 <= j < Word(b, 1) :: !MappingFits(b, j, chunks)
    then None
    else Some(Mappings(b, Word(b, 1)))
  }

  // ---- the strict reader

  class Reader {
    const bytes: seq<Byte>
    var pos: nat

    predicate Valid()
      reads this
    {
      pos <= |bytes|
    }

    constructor (bytes: seq<Byte>)
      ensures Valid() && this.bytes == bytes && pos == 0
    {
      this.bytes, pos := bytes, 0;
    }

    /** A big-endian field, None past the end of the box. */
    method Get(n: nat) returns (r: Option<nat>)
      requires Valid()
      modifies this`pos
      ensures Valid()
      ensures r.Some? <==> old(pos) + n <= |bytes|
      ensures r.Some? ==> pos == old(pos) + n && r.value == FromBE(bytes[old(pos)..pos])
    {
      if n > |bytes| - pos {
        return None;
      }
      ghost var start := pos;
      var v: nat, left := 0, n;
      while left > 0
        invariant 0 <= left <= n && start <= pos && pos == start + n - left && start + n <= |bytes|
        invariant v == FromBE(bytes[start..pos])
      {
        assert bytes[start..pos + 1] == bytes[start..pos] + [bytes[pos]];
        v := v * 256 + bytes[pos];
        pos := pos + 1;
        left := left - 1;
      }
      return Some(v);
    }
  }

  method ReadSizes(b: seq<Byte>, room: nat) returns (r: Option<seq<nat>>)
    ensures r == SizeTable(b, room)
  {
    var reader := new Reader(b);
    var flags := reader.Get(4);
    if flags.None? || flags.value != 0 { return None; }
    var fixed := reader.Get(4);
    if fixed.None? { return None; }
    var n := reader.Get(4);
    if n.None? || n.value > room { return None; }
    assert fixed.value == Word(b, 1) && n.value == Word(b, 2);
    var sizes := [];
    for i := 0 to n.value
      invariant fresh(reader) && reader.Valid() && reader.bytes == b && |sizes| == i
      invariant reader.pos == 12 + (if fixed.value == 0 then 4 * i else 0)
      invariant fixed.value == 0 ==> sizes == seq(i, k requires 0 <= k < i => Word(b, 3 + k))
      invariant fixed.value != 0 ==> sizes == seq(i, k => fixed.value)
    {
      if fixed.value != 0 {
        sizes := sizes + [fixed.value];
      } else {
        var size := reader.Get(4);
        if size.None? { return None; }
        assert size.value == Word(b, 3 + i);
        sizes := sizes + [size.value];
      }
    }
    if reader.pos != |b| { return None; }
    assert sizes == SizeTable(b, room).value;
    return Some(sizes);
  }

  /** The table holds these runs, and so far they fit the samples. */
  ghost predicate RunsRead(b: seq<Byte>, signed: bool, j: nat, values: seq<int>, n: nat) {
    8 + 8 * j <= |b| && values == Expand(Runs(b, signed, j)) && |values| <= n &&
    forall run | run in Runs(b, signed, j) :: run.count > 0
  }

  /** The value of run `j`. */
  function RunValue(b: seq<Byte>, signed: bool, j: nat): int
    requires 8 + 8 * (j + 1) <= |b|
  {
    if signed then Signed32(Word(b, 3 + 2 * j)) else Word(b, 3 + 2 * j)
  }

  lemma RunStep(b: seq<Byte>, signed: bool, j: nat, values: seq<int>, n: nat)
    requires RunsRead(b, signed, j, values, n) && 8 + 8 * (j + 1) <= |b|
    requires Word(b, 2 + 2 * j) > 0 && |values| + Word(b, 2 + 2 * j) <= n
    ensures RunsRead(b, signed, j + 1, values + Repeat(RunValue(b, signed, j), Word(b, 2 + 2 * j)), n)
  {
    RunsStep(b, signed, j);
    var all := Runs(b, signed, j + 1);
    assert all == Runs(b, signed, j) + [all[j]];
  }

  /** A run that is empty or does not fit spoils the table. */
  lemma RunRefused(b: seq<Byte>, j: nat, values: seq<int>, n: nat, composition: bool)
    requires |b| >= 8 && RunsRead(b, b[0] == 1, j, values, n) && j < Word(b, 1)
    requires 8 + 8 * (j + 1) <= |b| ==> Word(b, 2 + 2 * j) == 0 || |values| + Word(b, 2 + 2 * j) > n
    ensures !TimingAccepted(b, n, composition)
  {
    if TimingAccepted(b, n, composition) {
      var signed := b[0] == 1;
      var all := Runs(b, signed, Word(b, 1));
      assert all[j] in all;
      assert all[..j + 1] == Runs(b, signed, j + 1);
      assert all[..j + 1][..j] == Runs(b, signed, j);
      CountPrefix(all, j + 1);
    }
  }

  lemma TimingRead(b: seq<Byte>, values: seq<int>, n: nat, composition: bool)
    requires |b| >= 8 && b[0] <= (if composition then 1 else 0) && FromBE(b[1..4]) == 0
    requires RunsRead(b, b[0] == 1, Word(b, 1), values, n)
    ensures TimingTable(b, n, composition) ==
      if |values| == n && |b| == 8 + 8 * Word(b, 1) then Some(values) else None
  {
  }

  lemma NoRunsRead(b: seq<Byte>, signed: bool, n: nat)
    requires |b| >= 8
    ensures RunsRead(b, signed, 0, [], n)
  {
  }

  method ReadTiming(b: seq<Byte>, n: nat, composition: bool) returns (r: Option<seq<int>>)
    ensures r == TimingTable(b, n, composition)
  {
    hide RunsRead, Runs, Expand, Count;
    var reader := new Reader(b);
    var version := reader.Get(1);
    assert |b| > 0 ==> b[0..1] == [b[0]] && FromBE([b[0]]) == b[0] + 256 * FromBE([]);
    if version.None? || version.value > (if composition then 1 else 0) { return None; }
    var flags := reader.Get(3);
    if flags.None? || flags.value != 0 { return None; }
    var count := reader.Get(4);
    if count.None? { return None; }
    assert count.value == Word(b, 1);
    ghost var signed := b[0] == 1;
    var values := [];
    NoRunsRead(b, signed, n);
    for j := 0 to count.value
      invariant fresh(reader) && reader.Valid() && reader.bytes == b && reader.pos == 8 + 8 * j
      invariant RunsRead(b, signed, j, values, n)
      invariant |values| <= n
    {
      hide FromBE;
      var run := reader.Get(4);
      if run.None? {
        RunRefused(b, j, values, n, composition);
        return None;
      }
      var raw := reader.Get(4);
      if raw.None? {
        RunRefused(b, j, values, n, composition);
        return None;
      }
      assert run.value == Word(b, 2 + 2 * j) && raw.value == Word(b, 3 + 2 * j);
      var value := if composition && version.value == 1 then Signed32(raw.value) else raw.value;
      if run.value == 0 || run.value > n - |values| {
        RunRefused(b, j, values, n, composition);
        return None;
      }
      RunStep(b, signed, j, values, n);
      ghost var before := values;
      for k := 0 to run.value
        invariant values == before + Repeat(value, k)
      {
        assert Repeat(value, k + 1) == Repeat(value, k) + [value];
        values := values + [value];
      }
    }
    TimingRead(b, values, n, composition);
    if |values| != n || reader.pos != |b| { return None; }
    return Some(values);
  }

  method ReadSync(stss: Option<seq<Byte>>, n: nat) returns (r: Option<seq<bool>>)
    ensures r == SyncTable(stss, n)
  {
    hide FromBE;
    if stss.None? {
      return Some(seq(n, i => true));
    }
    var b := stss.value;
    var sync := seq(n, i => false);
    var reader := new Reader(b);
    var flags := reader.Get(4);
    if flags.None? || flags.value != 0 { return None; }
    var count := reader.Get(4);
    if count.None? { return None; }
    assert count.value == Word(b, 1);
    var prev := 0;
    for j := 0 to count.value
      invariant fresh(reader) && reader.Valid() && reader.bytes == b && reader.pos == 8 + 4 * j && |sync| == n
      invariant forall k | 0 <= k < j :: EntryFits(b, k, n)
      invariant prev == if j == 0 then 0 else Word(b, 1 + j)
      invariant forall i | 0 <= i < n :: sync[i] <==> i + 1 in Entries(b, j)
    {
      var index := reader.Get(4);
      if index.None? { return None; }
      assert index.value == Word(b, 2 + j);
      if index.value <= prev || index.value > n {
        assert !EntryFits(b, j, n);
        return None;
      }
      assert Entries(b, j + 1) == Entries(b, j) + [index.value];
      sync := sync[index.value - 1 := true];
      prev := index.value;
    }
    if reader.pos != |b| { return None; }
    assert sync == seq(n, i requires 0 <= i < n => i + 1 in Entries(b, Word(b, 1)));
    return Some(sync);
  }

  /** The table is read before the samples; the source reads each offset as it comes to the chunk. */
  method ReadChunks(b: seq<Byte>, wide: bool) returns (r: Option<seq<nat>>)
    ensures r == ChunkTable(b, wide)
  {
    var reader := new Reader(b);
    var flags := reader.Get(4);
    if flags.None? || flags.value != 0 { return None; }
    var chunks := reader.Get(4);
    if chunks.None? { return None; }
    assert chunks.value == Word(b, 1);
    var offsets := [];
    for j := 0 to chunks.value
      invariant fresh(reader) && reader.Valid() && reader.bytes == b && |offsets| == j
      invariant reader.pos == 8 + (if wide then 8 * j else 4 * j)
      invariant wide ==> forall k | 0 <= k < j :: offsets[k] == FromBE(b[8 + 8 * k..16 + 8 * k])
      invariant !wide ==> forall k | 0 <= k < j :: offsets[k] == Word(b, 2 + k)
    {
      var at := reader.Get(if wide then 8 else 4);
      if at.None? { return None; }
      assert !wide ==> at.value == Word(b, 2 + j);
      offsets := offsets + [at.value];
    }
    if reader.pos != |b| { return None; }
    assert offsets == ChunkTable(b, wide).value;
    return Some(offsets);
  }

  method ReadMappings(b: seq<Byte>, chunks: nat) returns (r: Option<seq<Mapping>>)
    ensures r == MappingTable(b, chunks)
  {
    hide FromBE;
    var reader := new Reader(b);
    var flags := reader.Get(4);
    if flags.None? || flags.value != 0 { return None; }
    var entries := reader.Get(4);
    if entries.None? { return None; }
    assert entries.value == Word(b, 1);
    var table: seq<Mapping> := [];
    for j := 0 to entries.value
      invariant fresh(reader) && reader.Valid() && reader.bytes == b && reader.pos == 8 + 12 * j
      invariant table == Mappings(b, j)
      invariant forall k | 0 <= k < j :: MappingFits(b, k, chunks)
    {
      var first := reader.Get(4);
      if first.None? { return None; }
      var count := reader.Get(4);
      if count.None? { return None; }
      var description := reader.Get(4);
      if description.None? { return None; }
      assert first.value == Word(b, 2 + 3 * j) && count.value == Word(b, 3 + 3 * j);
      assert description.value == Word(b, 4 + 3 * j);
      assert j > 0 ==> table[j - 1].first == Word(b, 3 * j - 1);
      if first.value == 0 || first.value > chunks || count.value == 0 || description.value != 1 ||
         (if table == [] then first.value != 1 else first.value <= table[|table| - 1].first) {
        assert !MappingFits(b, j, chunks);
        return None;
      }
      table := table + [Mapping(first.value, count.value)];
    }
    if reader.pos != |b| || (chunks > 0 && table == []) { return None; }
    return Some(table);
  }
}
