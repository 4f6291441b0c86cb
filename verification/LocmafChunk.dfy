/**
 * What the LOCMAF encoder reads out of one CMAF chunk, and how it compacts it.
 * `Read` gives the chunk's effective values (section 15.1 of
 * draft-einarsson-moq-locmaf-01); `Compact` turns them into the field table;
 * `Expand` is the receiver's way back (section 11.2 of the draft for sizes).
 */
module LocmafChunk {
  import opened Bytes

  /** Malformed input, a track that cannot use LOCMAF, or a chunk outside the field model. */
  datatype Failure = Bad | Ineligible | Outside

  datatype Result<+T> = Ok(value: T) | Err(error: Failure) {
    predicate IsFailure() { Err? }
    function PropagateFailure<U>(): Result<U>
      requires Err?
    {
      Err(error)
    }
    function Extract(): T
      requires Ok?
    {
      value
    }
  }

  function Check(condition: bool, error: Failure): Result<()> {
    if condition then Ok(()) else Err(error)
  }

  // ---- boxes

  datatype Box = Box(name: string, all: seq<Byte>, data: seq<Byte>)

  /** `boxes`: splits bytes into boxes with a 32-bit size; size escapes are refused. */
  function Boxes(data: seq<Byte>): Result<seq<Box>>
    decreases |data|
  {
    if data == [] then Ok([])
    else if |data| < 8 then Err(Bad)
    else
      var n := FromBE(data[..4]);
      if n < 8 || n > |data| then Err(Bad)
      else
        var rest :- Boxes(data[n..]);
        Ok([Box(Name(data[4..8]), data[..n], data[8..n])] + rest)
  }

  /** A box as `Boxes` yields it: its first four bytes hold its length. */
  ghost predicate Sized(b: Box) {
    |b.all| >= 8 && FromBE(b.all[..4]) == |b.all| && b.data == b.all[8..]
  }

  function Concat(list: seq<Box>): seq<Byte> {
    if list == [] then [] else list[0].all + Concat(list[1..])
  }

  /** Splitting loses nothing, and every box carries its own length. */
  lemma {:induction false} BoxesTile(data: seq<Byte>)
    requires Boxes(data).Ok?
    ensures Concat(Boxes(data).value) == data
    ensures forall b | b in Boxes(data).value :: Sized(b)
    decreases |data|
  {
    if data != [] {
      var n := FromBE(data[..4]);
      BoxesTile(data[n..]);
      var list := Boxes(data).value;
      assert list[1..] == Boxes(data[n..]).value;
      assert data == data[..n] + data[n..];
      assert data[..n][..4] == data[..4];
      assert data[..n][8..] == data[8..n];
    }
  }

  /** A successful result with `done` before it; errors pass through. */
  function After(done: seq<Box>, r: Result<seq<Box>>): Result<seq<Box>> {
    match r
    case Ok(rest) => Ok(done + rest)
    case Err(e) => Err(e)
  }

  lemma AfterOne(done: seq<Box>, b: Box, r: Result<seq<Box>>)
    ensures After(done, After([b], r)) == After(done + [b], r)
  {
    if r.Ok? {
      assert done + ([b] + r.value) == done + [b] + r.value;
    }
  }

  /** What `Boxes` does at an offset, in terms of the whole buffer. */
  lemma BoxesFrom(data: seq<Byte>, p: nat)
    requires p < |data|
    ensures |data| - p < 8 ==> Boxes(data[p..]) == Err(Bad)
    ensures |data| - p >= 8 ==> var n := FromBE(data[p..p + 4]);
      Boxes(data[p..]) ==
        if n < 8 || n > |data| - p then Err(Bad)
        else After([Box(Name(data[p + 4..p + 8]), data[p..p + n], data[p + 8..p + n])], Boxes(data[p + n..]))
  {
    if |data| - p >= 8 {
      SliceOfDrop(data, p, 0, 4);
      SliceOfDrop(data, p, 4, 8);
      var n := FromBE(data[p..p + 4]);
      if 8 <= n <= |data| - p {
        SliceOfDrop(data, p, 0, n);
        SliceOfDrop(data, p, 8, n);
        DropOfDrop(data, p, n);
      }
    }
  }

  /** `boxes`, with its cursor and its growing result. */
  method SplitBoxes(data: seq<Byte>) returns (r: Result<seq<Box>>)
    ensures r == Boxes(data)
  {
    var p := 0;
    var result: seq<Box> := [];
    assert data[0..] == data;
    if Boxes(data).Ok? {
      assert [] + Boxes(data).value == Boxes(data).value;
    }
    while p < |data|
      invariant 0 <= p <= |data|
      invariant Boxes(data) == After(result, Boxes(data[p..]))
    {
      var start := p;
      BoxesFrom(data, start);
      if 4 > |data| - p { return Err(Bad); }
      var n := FromBE(data[p..p + 4]);
      p := p + 4;
      if 4 > |data| - p { return Err(Bad); }
      var name := data[p..p + 4];
      p := p + 4;
      if n < 8 || n > |data| - start { return Err(Bad); }
      var payload := data[p..p + n - 8];
      p := p + (n - 8);
      var b := Box(Name(name), data[start..start + n], payload);
      AfterOne(result, b, Boxes(data[p..]));
      result := result + [b];
    }
    assert result + [] == result;
    return Ok(result);
  }

  function Count(list: seq<Box>, name: string): nat {
    if list == [] then 0 else (if list[0].name == name then 1 else 0) + Count(list[1..], name)
  }

  function First(list: seq<Box>, name: string): (r: Option<Box>)
    ensures r.Some? ==> r.value in list && r.value.name == name
    ensures r.None? ==> forall b | b in list :: b.name != name
  {
    if list == [] then None
    else if list[0].name == name then Some(list[0])
    else First(list[1..], name)
  }

  /** `one`: the only box of a type; none or two are an error. */
  function One(list: seq<Box>, name: string): Result<Box> {
    if Count(list, name) != 1 then Err(Bad)
    else match First(list, name) case Some(b) => Ok(b) case None => Err(Bad)
  }

  predicate Descends(name: string) {
    name in ["moov", "trak", "mdia", "minf", "stbl", "moof", "traf"]
  }

  /** `excluded`: refuses a track that needs sample groups, sub-samples or fragment licences. */
  function Excluded(list: seq<Box>, fragment: bool, depth: nat): Result<()>
    requires depth <= 33
    decreases 33 - depth, |list|
  {
    if depth > 32 then Err(Bad)
    else if list == [] then Ok(())
    else
      var b := list[0];
      var _ :- Check(!(b.name in ["sgpd", "sbgp", "subs"] || (fragment && b.name == "pssh")), Ineligible);
      var _ :- if Descends(b.name) then
                 var inner :- Boxes(b.data);
                 Excluded(inner, fragment, depth + 1)
               else Ok(());
      Excluded(list[1..], fragment, depth)
  }

  // ---- the cursor reads of `Reader`

  function Get(b: seq<Byte>, p: nat, n: nat): (r: Result<(nat, nat)>)
    requires p <= |b|
    ensures r.Ok? ==> r.value.1 == p + n <= |b| && r.value.0 < Pow256(n)
  {
    if n > |b| - p then Err(Bad)
    else
      assert FromBE(b[p..p + n]) < Pow256(n) by { FromBEBound(b[p..p + n]); }
      Ok((FromBE(b[p..p + n]), p + n))
  }

  /** An optional 32-bit field: read when its flag is set, else the default. */
  function GetIf(flag: bool, b: seq<Byte>, p: nat, default: nat): (r: Result<(nat, nat)>)
    requires p <= |b|
    ensures r.Ok? ==> p <= r.value.1 <= |b| && (default < TwoTo32 ==> r.value.0 < TwoTo32)
  {
    Pow256Values();
    if flag then Get(b, p, 4) else Ok((default, p))
  }

  function End(b: seq<Byte>, p: nat): Result<()> {
    Check(p == |b|, Bad)
  }

  // ---- effective values

  /** The track defaults read from the initialization segment. */
  datatype Context = Context(track: nat, description: nat, duration: nat, size: nat, flags: nat,
                             protectedTrack: bool, iv: nat)
  {
    ghost predicate Valid() {
      track < TwoTo32 && description < TwoTo32 && duration < TwoTo32 && size < TwoTo32 && flags < TwoTo32 &&
      (iv == 0 || iv == 8 || iv == 16)
    }
  }

  datatype Table = Table(durations: seq<int>, sizes: seq<int>, flags: seq<int>, offsets: seq<int>)

  /** Per-sample subsample counts, and the clear and protected lengths in one flat list each. */
  datatype Subsamples = Subsamples(counts: seq<int>, clear: seq<int>, encrypted: seq<int>)

  datatype Senc = Senc(ivs: seq<Byte>, hasIvs: bool, maps: Option<Subsamples>)

  datatype Effective = Effective(prefix: seq<Box>, description: nat, bmdt: nat, table: Table, senc: Senc,
                                 payload: seq<Byte>)

  datatype TrackFragment = TrackFragment(description: nat, duration: nat, size: nat, flags: nat) {
    ghost predicate Valid() {
      description < TwoTo32 && duration < TwoTo32 && size < TwoTo32 && flags < TwoTo32
    }
  }

  function ReadTfhd(b: seq<Byte>, c: Context): (r: Result<TrackFragment>)
    requires c.Valid()
    ensures r.Ok? ==> r.value.Valid()
  {
    Pow256Values();
    var (flags, p) :- Get(b, 0, 4);
    var _ :- Check(OnlyBits(flags, 0x02003A), Outside);
    var (track, p) :- Get(b, p, 4);
    var _ :- Check(track == c.track, Ineligible);
    var (description, p) :- GetIf(HasBit(flags, 1), b, p, c.description);
    var (duration, p) :- GetIf(HasBit(flags, 3), b, p, c.duration);
    var (size, p) :- GetIf(HasBit(flags, 4), b, p, c.size);
    var (defaults, p) :- GetIf(HasBit(flags, 5), b, p, c.flags);
    var _ :- End(b, p);
    Ok(TrackFragment(description, duration, size, defaults))
  }

  function ReadTfdt(b: seq<Byte>): (r: Result<nat>)
    ensures r.Ok? ==> r.value < TwoTo64
  {
    Pow256Values();
    var (flags, p) :- Get(b, 0, 4);
    var _ :- Check(flags == 0 || flags == 0x0100_0000, Outside);
    var (time, p) :- Get(b, p, if flags != 0 then 8 else 4);
    var _ :- End(b, p);
    Ok(time)
  }

  /** The head of a `trun`: its flags, sample count, first-sample flags and where the samples start. */
  datatype RunHead = RunHead(signed: bool, flags: nat, count: nat, first: nat, p: nat)

  function ReadRunHead(b: seq<Byte>, moofSize: nat, tf: TrackFragment): (r: Result<RunHead>)
    requires tf.Valid()
    ensures r.Ok? ==> r.value.p <= |b| && r.value.count <= 1_000_000 && r.value.first < TwoTo32
  {
    Pow256Values();
    var (word, p) :- Get(b, 0, 4);
    var version, flags := word / 0x100_0000, word % 0x100_0000;
    var _ :- Check(!(version > 1 || !OnlyBits(flags, 0x000F05) || (HasBit(flags, 2) && HasBit(flags, 10))),
                   Outside);
    var (n, p) :- Get(b, p, 4);
    var _ :- Check(n <= 1_000_000, Bad);
    var _ :- Check(HasBit(flags, 0), Outside);
    var (offset, p) :- Get(b, p, 4);
    var _ :- Check(offset == moofSize + 8, Outside);
    var (first, p) :- GetIf(HasBit(flags, 2), b, p, tf.flags);
    Ok(RunHead(version == 1, flags, n, first, p))
  }

  datatype Sample = Sample(duration: nat, size: nat, flags: nat, offset: int) {
    ghost predicate Valid() {
      duration < TwoTo32 && size < TwoTo32 && flags < TwoTo32 && -0x8000_0000 <= offset < TwoTo32
    }
  }

  function SignedOffset(signed: bool, raw: nat): int {
    if signed && raw >= 0x8000_0000 then raw - TwoTo32 else raw
  }

  function ReadSample(b: seq<Byte>, p: nat, h: RunHead, tf: TrackFragment, i: nat): (r: Result<(Sample, nat)>)
    requires p <= |b|
    requires tf.Valid() && h.first < TwoTo32
    ensures r.Ok? ==> p <= r.value.1 <= |b|
    ensures r.Ok? ==> r.value.0.Valid()
  {
    var (d, p) :- GetIf(HasBit(h.flags, 8), b, p, tf.duration);
    var (s, p) :- GetIf(HasBit(h.flags, 9), b, p, tf.size);
    var (f, p) :- GetIf(HasBit(h.flags, 10), b, p, if i > 0 then tf.flags else h.first);
    var (ct, p) :- GetIf(HasBit(h.flags, 11), b, p, 0);
    Ok((Sample(d, s, f, SignedOffset(h.signed, ct)), p))
  }

  function Join(a: Table, b: Table): Table {
    Table(a.durations + b.durations, a.sizes + b.sizes, a.flags + b.flags, a.offsets + b.offsets)
  }

  function Row(s: Sample): Table {
    Table([s.duration], [s.size], [s.flags], [s.offset])
  }

  /** The samples from the `i`th on, read from cursor `p`, and the cursor after them. */
  function ReadSamples(b: seq<Byte>, p: nat, h: RunHead, tf: TrackFragment, i: nat): (r: Result<(Table, nat)>)
    requires p <= |b| && i <= h.count
    requires tf.Valid() && h.first < TwoTo32
    ensures r.Ok? ==> r.value.1 <= |b| && ValidTable(r.value.0, h.count - i)
    decreases h.count - i
  {
    if i == h.count then Ok((Table([], [], [], []), p))
    else
      var (s, p) :- ReadSample(b, p, h, tf, i);
      var (t, p) :- ReadSamples(b, p, h, tf, i + 1);
      Ok((Join(Row(s), t), p))
  }

  ghost predicate Fits32(s: seq<int>) {
    forall i | 0 <= i < |s| :: 0 <= s[i] < TwoTo32
  }

  ghost predicate Signed33(s: seq<int>) {
    forall i | 0 <= i < |s| :: -0x8000_0000 <= s[i] < TwoTo32
  }

  ghost predicate ValidTable(t: Table, n: nat) {
    |t.durations| == n && |t.sizes| == n && |t.flags| == n && |t.offsets| == n &&
    Fits32(t.durations) && Fits32(t.sizes) && Fits32(t.flags) && Signed33(t.offsets)
  }

  function AfterTable(done: Table, r: Result<(Table, nat)>): Result<(Table, nat)> {
    match r
    case Ok((t, p)) => Ok((Join(done, t), p))
    case Err(e) => Err(e)
  }

  lemma AfterSample(done: Table, s: Sample, r: Result<(Table, nat)>)
    ensures AfterTable(done, AfterTable(Row(s), r)) == AfterTable(Join(done, Row(s)), r)
  {
    if r.Ok? {
      var t := r.value.0;
      assert done.durations + ([s.duration] + t.durations) == done.durations + [s.duration] + t.durations;
      assert done.sizes + ([s.size] + t.sizes) == done.sizes + [s.size] + t.sizes;
      assert done.flags + ([s.flags] + t.flags) == done.flags + [s.flags] + t.flags;
      assert done.offsets + ([s.offset] + t.offsets) == done.offsets + [s.offset] + t.offsets;
    }
  }

  lemma RowTotals(t: Table, s: Sample)
    ensures Sum(Join(t, Row(s)).durations) == Sum(t.durations) + s.duration
    ensures Sum(Join(t, Row(s)).sizes) == Sum(t.sizes) + s.size
  {
    SumAppend(t.durations, [s.duration]);
    SumAppend(t.sizes, [s.size]);
    assert Sum([s.duration]) == s.duration && Sum([s.size]) == s.size;
  }

  /** After `i` rows the whole read is the rows so far, then the rest. */
  ghost predicate RowsSoFar(b: seq<Byte>, h: RunHead, tf: TrackFragment, t: Table, p: nat, i: nat)
    requires h.p <= |b| && p <= |b| && i <= h.count && tf.Valid() && h.first < TwoTo32
  {
    ReadSamples(b, h.p, h, tf, 0) == AfterTable(t, ReadSamples(b, p, h, tf, i))
  }

  lemma OneMoreRow(b: seq<Byte>, h: RunHead, tf: TrackFragment, t: Table, p: nat, i: nat)
    requires h.p <= |b| && p <= |b| && i < h.count && tf.Valid() && h.first < TwoTo32
    requires RowsSoFar(b, h, tf, t, p, i)
    ensures match ReadSample(b, p, h, tf, i)
      case Err(e) => ReadSamples(b, h.p, h, tf, 0) == Err(e)
      case Ok((s, q)) => RowsSoFar(b, h, tf, Join(t, Row(s)), q, i + 1)
  {
    match ReadSample(b, p, h, tf, i) {
      case Err(e) =>
      case Ok((s, q)) => AfterSample(t, s, ReadSamples(b, q, h, tf, i + 1));
    }
  }

  lemma NoRows(b: seq<Byte>, h: RunHead, tf: TrackFragment)
    requires h.p <= |b| && tf.Valid() && h.first < TwoTo32
    ensures RowsSoFar(b, h, tf, Table([], [], [], []), h.p, 0)
  {
    var r := ReadSamples(b, h.p, h, tf, 0);
    if r.Ok? {
      assert Join(Table([], [], [], []), r.value.0) == r.value.0;
    }
  }

  /** The sample loop of `parse`, with its running totals. */
  method LoopSamples(b: seq<Byte>, h: RunHead, tf: TrackFragment)
    returns (r: Result<(Table, nat)>, duration: nat, totalSize: nat)
    requires h.p <= |b| && tf.Valid() && h.first < TwoTo32
    ensures r == ReadSamples(b, h.p, h, tf, 0)
    ensures r.Ok? ==> duration == Sum(r.value.0.durations) && totalSize == Sum(r.value.0.sizes)
  {
    var t, p: nat, i := Table([], [], [], []), h.p, 0;
    duration, totalSize := 0, 0;
    NoRows(b, h, tf);
    while i < h.count
      invariant 0 <= i <= h.count && p <= |b| && RowsSoFar(b, h, tf, t, p, i)
      invariant duration == Sum(t.durations) && totalSize == Sum(t.sizes)
    {
      OneMoreRow(b, h, tf, t, p, i);
      var sample := ReadSample(b, p, h, tf, i);
      if sample.Err? {
        return Err(sample.error), duration, totalSize;
      }
      var s := sample.value.0;
      RowTotals(t, s);
      t, p := Join(t, Row(s)), sample.value.1;
      duration, totalSize := duration + s.duration, totalSize + s.size;
      i := i + 1;
    }
    assert Join(t, Table([], [], [], [])) == t;
    return Ok((t, p)), duration, totalSize;
  }

  // ---- sample encryption

  /** One sample's subsample entries from the `j`th of `n` on. */
  function ReadEntries(b: seq<Byte>, p: nat, n: nat): (r: Result<(seq<int>, seq<int>, nat)>)
    requires p <= |b|
    ensures r.Ok? ==> r.value.2 == p + 6 * n <= |b| && |r.value.0| == |r.value.1| == n
    ensures r.Ok? ==> Fits32(r.value.0) && Fits32(r.value.1)
    decreases n
  {
    Pow256Values();
    if n == 0 then Ok(([], [], p))
    else
      var (clear, p) :- Get(b, p, 2);
      var (encrypted, p) :- Get(b, p, 4);
      var (cs, es, p) :- ReadEntries(b, p, n - 1);
      Ok(([clear] + cs, [encrypted] + es, p))
  }

  /** One sample's senc entry: its IV bytes, its subsample count when mapped, and its entries. */
  datatype SencRow = SencRow(iv: seq<Byte>, clear: seq<int>, encrypted: seq<int>)

  function ReadSencRow(b: seq<Byte>, p: nat, iv: nat, mapped: bool, size: int): (r: Result<(SencRow, nat)>)
    requires p <= |b|
    ensures r.Ok? ==> r.value.1 <= |b| && |r.value.0.iv| == iv
    ensures r.Ok? ==> |r.value.0.clear| == |r.value.0.encrypted| <= 42
    ensures r.Ok? ==> Fits32(r.value.0.clear) && Fits32(r.value.0.encrypted)
  {
    var _ :- Check(iv <= |b| - p, Bad);
    if !mapped then Ok((SencRow(b[p..p + iv], [], []), p + iv))
    else
      var (n, q) :- Get(b, p + iv, 2);
      var _ :- Check(iv + 2 + 6 * n <= 255, Bad);
      var (cs, es, q) :- ReadEntries(b, q, n);
      var _ :- Check(n == 0 || Sum(cs) + Sum(es) == size, Bad);
      Ok((SencRow(b[p..p + iv], cs, es), q))
  }

  function ConsRow(row: SencRow, rest: Senc): Senc {
    rest.(ivs := row.iv + rest.ivs,
          maps := match rest.maps
                  case None => None
                  case Some(m) =>
                    Some(Subsamples([|row.clear|] + m.counts, row.clear + m.clear, row.encrypted + m.encrypted)))
  }

  /** The senc entries of the samples with these sizes, from cursor `p`. */
  function ReadSenc(b: seq<Byte>, p: nat, iv: nat, mapped: bool, sizes: seq<int>): (r: Result<(Senc, nat)>)
    requires p <= |b|
    ensures r.Ok? ==> r.value.1 <= |b| && r.value.0.hasIvs == (iv != 0) && (iv == 0 ==> r.value.0.ivs == [])
    ensures r.Ok? ==> ValidSenc(r.value.0, |sizes|, mapped) && (iv <= 16 ==> |r.value.0.ivs| <= 16 * |sizes|)
    decreases |sizes|
  {
    if sizes == [] then Ok((Senc([], iv != 0, if mapped then Some(Subsamples([], [], [])) else None), p))
    else
      var (row, p) :- ReadSencRow(b, p, iv, mapped, sizes[0]);
      var (rest, p) :- ReadSenc(b, p, iv, mapped, sizes[1..]);
      Ok((ConsRow(row, rest), p))
  }

  ghost predicate ValidSenc(s: Senc, n: nat, mapped: bool) {
    s.maps.Some? == mapped &&
    (mapped ==> var m := s.maps.value;
       |m.counts| == n && |m.clear| == |m.encrypted| <= 42 * n && Fits32(m.counts) && Fits32(m.clear) && Fits32(m.encrypted))
  }

  /** `encryption`: the per-sample initialization vectors and subsample maps. */
  function Encryption(b: seq<Byte>, c: Context, sizes: seq<int>): (r: Result<Senc>)
    requires c.Valid()
    ensures r.Ok? ==> |r.value.ivs| <= 16 * |sizes|
    ensures r.Ok? ==> ValidSenc(r.value, |sizes|, r.value.maps.Some?) && (!r.value.hasIvs ==> r.value.ivs == [])
  {
    var _ :- Check(c.protectedTrack, Outside);
    var (vf, p) :- Get(b, 0, 4);
    var _ :- Check(OnlyBits(vf, 2), Outside);
    var (n, p) :- Get(b, p, 4);
    var _ :- Check(n == |sizes|, Bad);
    var (senc, p) :- ReadSenc(b, p, c.iv, HasBit(vf, 1), sizes);
    var _ :- End(b, p);
    Ok(senc)
  }

  // ---- the chunk

  function IndexOf(list: seq<Box>, name: string): (i: nat)
    ensures i <= |list|
    ensures i < |list| ==> list[i].name == name
  {
    if list == [] then 0 else if list[0].name == name then 0 else 1 + IndexOf(list[1..], name)
  }

  predicate AllNamed(list: seq<Box>, names: set<string>) {
    forall b | b in list :: b.name in names
  }

  /** The traf boxes after the header checks: fragment defaults, decode time and sample table. */
  function ReadTraf(tc: seq<Box>, c: Context, moofSize: nat, payload: seq<Byte>)
    : (r: Result<(TrackFragment, nat, Table)>)
    requires c.Valid()
    ensures r.Ok? ==> var (tf, bmdt, t) := r.value;
      tf.Valid() && bmdt < TwoTo64 && |t.sizes| <= 1_000_000 && ValidTable(t, |t.sizes|) &&
      Sum(t.sizes) == |payload|
  {
    var tfhd :- One(tc, "tfhd");
    var tf :- ReadTfhd(tfhd.data, c);
    var tfdt :- One(tc, "tfdt");
    var bmdt :- ReadTfdt(tfdt.data);
    var trun :- One(tc, "trun");
    var h :- ReadRunHead(trun.data, moofSize, tf);
    var (t, p) :- ReadSamples(trun.data, h.p, h, tf, 0);
    var _ :- End(trun.data, p);
    var _ :- Check(Sum(t.sizes) == |payload|, Bad);
    Ok((tf, bmdt, t))
  }

  function ReadProtection(tc: seq<Box>, c: Context, sizes: seq<int>): (r: Result<Senc>)
    requires c.Valid()
    ensures r.Ok? ==> |r.value.ivs| <= 16 * |sizes|
    ensures r.Ok? ==> ValidSenc(r.value, |sizes|, r.value.maps.Some?) && (!r.value.hasIvs ==> r.value.ivs == [])
  {
    if First(tc, "senc").Some? then
      var senc :- One(tc, "senc");
      Encryption(senc.data, c, sizes)
    else
      var _ :- Check(!((c.protectedTrack && c.iv != 0 && sizes != []) ||
                       First(tc, "saiz").Some? || First(tc, "saio").Some?), Outside);
      Ok(Senc([], false, None))
  }

  /** The moof checks of `parse`: one mfhd, one traf, one trun, and nothing unknown. */
  function ReadMoof(data: seq<Byte>): Result<seq<Box>> {
    var mc :- Boxes(data);
    var _ :- Check(AllNamed(mc, {"mfhd", "traf"}), Outside);
    var _ :- Check(Count(mc, "traf") == 1, Outside);
    var mfhd :- One(mc, "mfhd");
    var (mf, p) :- Get(mfhd.data, 0, 4);
    var _ :- Check(mf == 0, Outside);
    var (_, p) :- Get(mfhd.data, p, 4);
    var _ :- End(mfhd.data, p);
    var traf :- One(mc, "traf");
    var tc :- Boxes(traf.data);
    var _ :- Check(AllNamed(tc, {"tfhd", "tfdt", "trun", "senc", "saiz", "saio"}), Outside);
    var _ :- Check(Count(tc, "trun") == 1, Outside);
    Ok(tc)
  }

  /** `parse` up to the field table: the chunk's effective values, or why it has none. */
  function Read(top: seq<Box>, c: Context): (r: Result<Effective>)
    requires c.Valid()
    ensures r.Ok? ==> r.value.prefix <= top && ValidEffective(r.value)
  {
    var it := IndexOf(top, "moof");
    var _ :- Check(it < |top| && |top| - it == 2 && top[it + 1].name == "mdat", Outside);
    var prefix, payload := top[..it], top[it + 1].data;
    var _ :- Check(forall b | b in prefix :: b.name != "mdat" && b.name != "moof", Outside);
    var tc :- ReadMoof(top[it].data);
    var (tf, bmdt, t) :- ReadTraf(tc, c, |top[it].all|, payload);
    var senc :- ReadProtection(tc, c, t.sizes);
    Ok(Effective(prefix, tf.description, bmdt, t, senc, payload))
  }

  /** What `Read` guarantees about the values it returns. */
  ghost predicate ValidEffective(e: Effective) {
    e.description < TwoTo32 && e.bmdt < TwoTo64 && |e.table.sizes| <= 1_000_000 &&
    ValidTable(e.table, |e.table.sizes|) && Sum(e.table.sizes) == |e.payload| &&
    ValidSenc(e.senc, |e.table.sizes|, e.senc.maps.Some?) && |e.senc.ivs| <= 16 * |e.table.sizes| && (!e.senc.hasIvs ==> e.senc.ivs == [])
  }
}
