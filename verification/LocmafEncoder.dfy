/**
 * The stateful LOCMAF encoder and its runs: whatever sequence of `encode` and
 * `reset` calls is made, a receiver that only sees the objects recovers every chunk.
 */
module LocmafEncoder {
  import opened Bytes
  import opened LocmafChunk
  import opened LocmafTable
  import opened LocmafWire
  import opened LocmafCodec
  import Vi64

  /** The encoder's state between calls. */
  datatype State = State(previous: Fields, ivs: seq<Byte>, group: nat, number: nat, bmdt: nat, duration: nat,
                         anchored: bool)
  {
    ghost predicate Valid() {
      ValidFields(previous) && |ivs| <= 16_000_000 && (9 !in previous ==> ivs == []) && bmdt < TwoTo64
    }
  }

  const Fresh := State(map[], [], 0, 0, 0, 0, false)

  function Cleared(s: State): State {
    s.(anchored := false, previous := map[], ivs := [])
  }

  /** When an object cannot be a delta: forced, unanchored, a gap, or an unexpected decode time. */
  predicate NeedsFull(s: State, p: Parsed, group: nat, number: nat, force: bool) {
    force || !s.anchored || group != s.group || s.number == MaxU64 || number != s.number + 1 ||
    s.duration > MaxU64 - s.bmdt || p.bmdt != s.bmdt + s.duration
  }

  function BlockOf(s: State, p: Parsed, full: bool): (block: Block)
    requires s.Valid() && ValidParsed(p)
    ensures ValidBlock(block)
  {
    if full then FullBlock(p) else DeltaBlock(p, s.previous, s.ivs)
  }

  lemma CompactIsParsed(c: Context, e: Effective)
    requires ValidEffective(e)
    ensures ValidParsed(Compact(c, e))
  {
    CompactIsValid(c, e);
    OwnFields(c, e, 9);
  }

  function Remember(p: Parsed, group: nat, number: nat): State {
    State(p.fields, p.ivs, group, number, p.bmdt, p.duration, true)
  }

  /** The boxes of a chunk that `encode` accepts so far: not empty, nothing excluded. */
  function Admit(chunk: seq<Byte>): (r: Result<seq<Box>>)
    ensures r.Ok? ==> chunk != [] && forall b | b in r.value :: Sized(b)
  {
    var top :- Boxes(chunk);
    BoxesTile(chunk);
    var _ :- Check(top != [], Bad);
    var _ :- Excluded(top, true, 0);
    Ok(top)
  }

  /** `encode` as a step: the object and the next state, or an error that changes nothing. */
  function Step(c: Context, s: State, chunk: seq<Byte>, group: nat, number: nat, force: bool)
    : (r: Result<(seq<Byte>, State)>)
    requires c.Valid() && s.Valid()
    ensures r.Ok? ==> r.value.1.Valid()
  {
    var top :- Admit(chunk);
    match Read(top, c)
    case Err(Outside) => Ok((WriteRaw(chunk), Cleared(s)))
    case Err(e) => Err(e)
    case Ok(e) =>
      CompactIsParsed(c, e);
      var p := Compact(c, e);
      var full := NeedsFull(s, p, group, number, force);
      Ok((WriteObject(p.prefix, full, BlockOf(s, p, full), p.payload), Remember(p, group, number)))
  }

  // ---- the class

  lemma {:induction false} FullIgnoresBefore(id: nat, before: seq<int>, values: seq<int>, i: nat)
    requires i <= |values| && Bounded(id, values) && Bounded(id, before)
    ensures WriteList(id, true, before, values, i) == WriteList(id, true, [], values, i)
    decreases |values| - i
  {
    if i < |values| {
      FullIgnoresBefore(id, before, values, i + 1);
    }
  }

  lemma FullEntryIgnoresBefore(id: nat, before: seq<int>, values: seq<int>)
    requires Bounded(id, values) && Bounded(id, before) && (id % 2 == 0 ==> |values| == 1)
    ensures EntryOf(id, true, before, values) == EntryOf(id, true, [], values)
  {
    FullIgnoresBefore(id, before, values, 0);
  }

  /** The traf part of `parse`, with the sample loop. */
  method ParseTraf(tc: seq<Box>, c: Context, moofSize: nat, payload: seq<Byte>)
    returns (r: Result<(TrackFragment, nat, Table)>, duration: nat)
    requires c.Valid()
    ensures r == ReadTraf(tc, c, moofSize, payload)
    ensures r.Ok? ==> duration == Sum(r.value.2.durations)
  {
    hide ReadTfhd, ReadTfdt, ReadRunHead, ReadSamples, One;
    duration := 0;
    var tfhd := One(tc, "tfhd");
    if tfhd.Err? { return Err(tfhd.error), 0; }
    var tf := ReadTfhd(tfhd.value.data, c);
    if tf.Err? { return Err(tf.error), 0; }
    var tfdt := One(tc, "tfdt");
    if tfdt.Err? { return Err(tfdt.error), 0; }
    var bmdt := ReadTfdt(tfdt.value.data);
    if bmdt.Err? { return Err(bmdt.error), 0; }
    var trun := One(tc, "trun");
    if trun.Err? { return Err(trun.error), 0; }
    var h := ReadRunHead(trun.value.data, moofSize, tf.value);
    if h.Err? { return Err(h.error), 0; }
    var rows, total;
    rows, duration, total := LoopSamples(trun.value.data, h.value, tf.value);
    if rows.Err? { return Err(rows.error), duration; }
    if rows.value.1 != |trun.value.data| { return Err(Bad), duration; }
    if total != |payload| { return Err(Bad), duration; }
    return Ok((tf.value, bmdt.value, rows.value.0)), duration;
  }

  /** `parse`. */
  method ParseChunk(top: seq<Box>, c: Context) returns (r: Result<Parsed>)
    requires c.Valid()
    ensures r == Parse(top, c)
  {
    hide ReadMoof, ReadTraf, ReadProtection, CompactFields;
    var it := IndexOf(top, "moof");
    if !(it < |top| && |top| - it == 2 && top[it + 1].name == "mdat") { return Err(Outside); }
    var prefix, payload := top[..it], top[it + 1].data;
    if exists b | b in prefix :: b.name == "mdat" || b.name == "moof" { return Err(Outside); }
    var tc := ReadMoof(top[it].data);
    if tc.Err? { return Err(tc.error); }
    var traf, duration := ParseTraf(tc.value, c, |top[it].all|, payload);
    if traf.Err? { return Err(traf.error); }
    var (tf, bmdt, t) := traf.value;
    var senc := ReadProtection(tc.value, c, t.sizes);
    if senc.Err? { return Err(senc.error); }
    var e := Effective(prefix, tf.description, bmdt, t, senc.value, payload);
    return Ok(Parsed(CompactFields(c, e), e.senc.ivs, e.payload, e.prefix, e.bmdt, duration));
  }

  method EmitTime(properties: seq<Byte>, bmdt: nat) returns (out: seq<Byte>)
    requires bmdt < TwoTo64
    ensures out == properties + WriteEntry(10, Number(bmdt))
  {
    out := Vi64.Append(properties, 10);
    out := Vi64.Append(out, bmdt);
  }

  method EmitIvs(properties: seq<Byte>, ivs: seq<Byte>) returns (out: seq<Byte>)
    requires |ivs| <= 16_000_000
    ensures out == properties + WriteEntry(9, Blob(ivs))
  {
    out := Vi64.Append(properties, 9);
    out := Vi64.Append(out, |ivs|);
    out := out + ivs;
  }

  /** The scan for fields that the new chunk no longer has. */
  method ScanRemoved(previous: Fields, fields: Fields) returns (removed: seq<int>)
    ensures removed == RemovedIds(previous, fields, 0)
  {
    hide RemovedIds;
    removed := [];
    var id := 0;
    NoneRemoved(previous, fields);
    while id < 28
      invariant 0 <= id <= 28
      invariant removed + RemovedIds(previous, fields, id) == RemovedIds(previous, fields, 0)
    {
      RemovedStep(previous, fields, id, removed);
      if id in previous && id !in fields {
        removed := removed + [id];
      }
      id := id + 1;
    }
    assert removed + [] == removed;
  }

  lemma NoneRemoved(previous: Fields, fields: Fields)
    ensures RemovedIds(previous, fields, 28) == []
    ensures [] + RemovedIds(previous, fields, 0) == RemovedIds(previous, fields, 0)
  {
  }

  lemma RemovedStep(previous: Fields, fields: Fields, id: nat, removed: seq<int>)
    requires id < 28
    ensures var rest := RemovedIds(previous, fields, id + 1);
      removed + RemovedIds(previous, fields, id) ==
      if id in previous && id !in fields then removed + [id] + rest else removed + rest
  {
  }

  /** What the field loop of `encode` writes at one id. */
  function Emits(s: State, p: Parsed, full: bool, id: nat): (e: Option<Entry>)
    requires s.Valid() && ValidParsed(p)
    ensures e.Some? ==> ValidEntry(id, e.value)
  {
    if id == 10 then if full then Some(Number(p.bmdt)) else None
    else if id == 27 then
      var removed := RemovedIds(s.previous, p.fields, 0);
      if !full && removed != [] then Some(EntryOf(27, false, [], removed)) else None
    else if id !in p.fields then None
    else if id == 9 then if full || 9 !in s.previous || p.ivs != s.ivs then Some(Blob(p.ivs)) else None
    else if full || id !in s.previous || p.fields[id] != s.previous[id] then
      Some(EntryOf(id, full, PreviousValues(s.previous, id), p.fields[id]))
    else None
  }

  function EntryAt(block: Block, id: nat): Option<Entry> {
    if id in block then Some(block[id]) else None
  }

  lemma EmitsBlock(s: State, p: Parsed, full: bool, id: nat)
    requires s.Valid() && ValidParsed(p)
    ensures EntryAt(BlockOf(s, p, full), id) == Emits(s, p, full, id)
  {
    hide EntryOf, RemovedIds, WriteList;
    assert 10 !in p.fields && 27 !in p.fields;
    if full && id in p.fields && id != 9 {
      FullEntryIgnoresBefore(id, PreviousValues(s.previous, id), p.fields[id]);
    }
  }

  function WriteIf(id: nat, e: Option<Entry>): seq<Byte>
    requires id < 28 && (e.Some? ==> ValidEntry(id, e.value))
  {
    if e.Some? then WriteEntry(id, e.value) else []
  }

  lemma BlockStep(block: Block, id: nat, properties: seq<Byte>)
    requires ValidBlock(block) && id < 28
    ensures properties + WriteBlock(block, id) ==
      properties + WriteIf(id, EntryAt(block, id)) + WriteBlock(block, id + 1)
  {
    hide WriteBlock, WriteIf, ValidBlock;
    WriteNext(block, id);
    Joined(properties, WriteIf(id, EntryAt(block, id)), WriteBlock(block, id + 1));
  }

  lemma WriteNext(block: Block, id: nat)
    requires ValidBlock(block) && id < 28
    ensures EntryAt(block, id).Some? ==> ValidEntry(id, EntryAt(block, id).value)
    ensures WriteBlock(block, id) == WriteIf(id, EntryAt(block, id)) + WriteBlock(block, id + 1)
  {
    hide WriteEntry, ValidEntry;
  }

  lemma Joined(a: seq<Byte>, b: seq<Byte>, c: seq<Byte>)
    ensures a + (b + c) == a + b + c
  {
  }

  lemma EmptyBlock(block: Block)
    requires ValidBlock(block)
    ensures WriteBlock(block, 28) == []
  {
  }

  class LocmafEncoder {
    const context: Context
    var previous: Fields
    var ivs: seq<Byte>
    var group: nat
    var number: nat
    var bmdt: nat
    var duration: nat
    var anchored: bool

    ghost function Model(): State
      reads this
    {
      State(previous, ivs, group, number, bmdt, duration, anchored)
    }

    ghost predicate Valid()
      reads this
    {
      context.Valid() && Model().Valid()
    }

    constructor (context: Context)
      requires context.Valid()
      ensures Valid() && this.context == context && Model() == Fresh
    {
      this.context := context;
      previous, ivs, group, number, bmdt, duration, anchored := map[], [], 0, 0, 0, 0, false;
    }

    method Reset()
      requires Valid()
      modifies this
      ensures Valid() && Model() == Cleared(old(Model()))
    {
      anchored := false;
      previous := map[];
      ivs := [];
    }

    /** One turn of the field loop of `encode`. */
    method EmitField(properties: seq<Byte>, p: Parsed, full: bool, id: nat) returns (out: seq<Byte>)
      requires Valid() && ValidParsed(p) && id < 28
      ensures out == properties + WriteIf(id, Emits(Model(), p, full, id))
    {
      hide WriteEntry, EntryOf, RemovedIds;
      out := properties;
      if id == 10 {
        if full {
          out := EmitTime(out, p.bmdt);
        }
      } else if id == 27 {
        if !full {
          var removed := ScanRemoved(previous, p.fields);
          if removed != [] {
            out := WriteField(out, 27, removed, full, []);
          }
        }
      } else if id in p.fields {
        if id == 9 {
          if full || 9 !in previous || p.ivs != ivs {
            out := EmitIvs(out, p.ivs);
          }
        } else if full || id !in previous || p.fields[id] != previous[id] {
          out := WriteField(out, id, p.fields[id], full, if id in previous then previous[id] else []);
        }
      }
    }

    /** The field loop of `encode`. */
    method EmitFields(p: Parsed, full: bool) returns (properties: seq<Byte>)
      requires Valid() && ValidParsed(p)
      ensures properties == WriteBlock(BlockOf(Model(), p, full), 0)
    {
      hide BlockOf, WriteBlock, WriteIf, Emits;
      properties := [];
      var id := 0;
      ghost var block := BlockOf(Model(), p, full);
      while id < 28
        invariant 0 <= id <= 28
        invariant properties + WriteBlock(block, id) == WriteBlock(block, 0)
      {
        EmitsBlock(Model(), p, full, id);
        BlockStep(block, id, properties);
        properties := EmitField(properties, p, full, id);
        id := id + 1;
      }
      EmptyBlock(block);
    }

    /** Boxes, header and payload. */
    method Assemble(p: Parsed, full: bool) returns (output: seq<Byte>)
      requires Valid() && ValidParsed(p) && forall b | b in p.prefix :: Sized(b)
      ensures output == WriteObject(p.prefix, full, BlockOf(Model(), p, full), p.payload)
    {
      hide BlockOf, WriteBlock, WriteBoxes, Vi64.Encode, Sized;
      var properties := EmitFields(p, full);
      output := WritePrefix(p.prefix);
      output := Vi64.Append(output, if full then 2 else 3);
      output := Vi64.Append(output, |properties|);
      output := output + properties + p.payload;
    }

    /** `encode`: one object, or an error after which nothing has changed. */
    method Encode(chunk: seq<Byte>, group: nat, number: nat, force: bool) returns (r: Result<seq<Byte>>)
      requires Valid()
      modifies this
      ensures Valid()
      ensures match Step(context, old(Model()), chunk, group, number, force)
        case Ok((wire, s)) => r == Ok(wire) && Model() == s
        case Err(e) => r == Err(e) && Model() == old(Model())
    {
      hide Read, CompactFields, BlockOf, WriteObject, Boxes, Excluded, Sized;
      var split := SplitBoxes(chunk);
      if split.Err? { return Err(split.error); }
      var top := split.value;
      BoxesTile(chunk);
      if top == [] { return Err(Bad); }
      var excluded := Excluded(top, true, 0);
      if excluded.Err? { return Err(excluded.error); }
      var parsed := ParseChunk(top, context);
      if parsed.Err? {
        if parsed.error.Outside? {
          Reset();
          return Ok([4] + chunk);
        }
        return Err(parsed.error);
      }
      var p := parsed.value;
      CompactIsParsed(context, Read(top, context).value);
      var output := EncodeParsed(p, group, number, force);
      return Ok(output);
    }

    /** The part of `encode` after parsing: full or delta, the object, the new state. */
    method EncodeParsed(p: Parsed, group: nat, number: nat, force: bool) returns (output: seq<Byte>)
      requires Valid() && ValidParsed(p) && forall b | b in p.prefix :: Sized(b)
      modifies this
      ensures Valid() && Model() == Remember(p, group, number)
      ensures var s := old(Model());
        var full := NeedsFull(s, p, group, number, force);
        output == WriteObject(p.prefix, full, BlockOf(s, p, full), p.payload)
    {
      hide BlockOf, WriteObject, Sized;
      var full := force || !anchored || group != this.group || this.number == MaxU64 || number != this.number + 1 ||
        duration > MaxU64 - bmdt || p.bmdt != bmdt + duration;
      output := Assemble(p, full);
      previous, ivs := p.fields, p.ivs;
      this.group, this.number := group, number;
      bmdt, duration, anchored := p.bmdt, p.duration, true;
    }
  }

  function WriteBox(b: Box): seq<Byte>
    requires Sized(b)
  {
    SizedIsShort(b);
    Vi64.Encode(1) + Vi64.Encode(|b.all| - 4) + b.all[4..]
  }

  lemma WriteBoxesStep(prefix: seq<Box>, i: nat)
    requires i < |prefix| && forall b | b in prefix :: Sized(b)
    ensures WriteBoxes(prefix[i..]) == WriteBox(prefix[i]) + WriteBoxes(prefix[i + 1..])
  {
    hide Sized, Vi64.Encode;
    assert prefix[i..][1..] == prefix[i + 1..];
  }

  method AppendBox(output: seq<Byte>, b: Box) returns (out: seq<Byte>)
    requires Sized(b)
    ensures out == output + WriteBox(b)
  {
    hide Sized, Vi64.Encode, BE;
    SizedIsShort(b);
    out := Vi64.Append(output, 1);
    out := Vi64.Append(out, |b.all| - 4);
    out := out + b.all[4..];
  }

  /** The pre-moof boxes at the head of an object. */
  method WritePrefix(prefix: seq<Box>) returns (output: seq<Byte>)
    requires forall b | b in prefix :: Sized(b)
    ensures output == WriteBoxes(prefix)
  {
    hide WriteBoxes, WriteBox, Sized;
    output := [];
    var i := 0;
    assert prefix[0..] == prefix;
    while i < |prefix|
      invariant 0 <= i <= |prefix|
      invariant output + WriteBoxes(prefix[i..]) == WriteBoxes(prefix)
    {
      WriteBoxesStep(prefix, i);
      output := AppendBox(output, prefix[i]);
      i := i + 1;
    }
    NoBoxes(prefix[i..]);
  }

  lemma NoBoxes(prefix: seq<Box>)
    requires prefix == []
    ensures WriteBoxes(prefix) == []
  {
  }

  // ---- runs

  datatype Call = Encode(chunk: seq<Byte>, group: nat, number: nat, force: bool) | Reset

  /** The objects a run emits; a refused chunk emits none. */
  function Objects(c: Context, s: State, calls: seq<Call>): seq<seq<Byte>>
    requires c.Valid() && s.Valid()
    decreases |calls|
  {
    if calls == [] then []
    else match calls[0]
      case Reset => Objects(c, Cleared(s), calls[1..])
      case Encode(chunk, group, number, force) =>
        match Step(c, s, chunk, group, number, force)
        case Err(_) => Objects(c, s, calls[1..])
        case Ok((wire, s')) => [wire] + Objects(c, s', calls[1..])
  }

  /** What one chunk means, whatever the encoder's state: nothing when it is refused. */
  function Meaning(c: Context, chunk: seq<Byte>): Option<Media>
    requires c.Valid()
  {
    match Admit(chunk)
    case Err(_) => None
    case Ok(top) =>
      match Read(top, c)
      case Err(Outside) => Some(RawMedia(chunk))
      case Err(_) => None
      case Ok(e) => Some(Chunk(AllBytes(e.prefix), e.description, e.bmdt, e.table, e.senc, e.payload))
  }

  function Meanings(c: Context, calls: seq<Call>): seq<Media>
    requires c.Valid()
  {
    if calls == [] then []
    else (match calls[0]
          case Reset => []
          case Encode(chunk, _, _, _) =>
            match Meaning(c, chunk) case None => [] case Some(m) => [m]) + Meanings(c, calls[1..])
  }

  function ReceiveAll(c: Context, ref: Reference, objects: seq<seq<Byte>>): Option<seq<Media>>
    decreases |objects|
  {
    if objects == [] then Some([])
    else match Receive(c, ref, objects[0])
      case None => None
      case Some((m, next)) =>
        match ReceiveAll(c, next, objects[1..])
        case None => None
        case Some(rest) => Some([m] + rest)
  }

  /** The receiver's reference is the encoder's previous object whenever a delta is possible. */
  ghost predicate InStep(s: State, ref: Reference) {
    s.anchored ==> ref == Reference(s.previous, s.ivs, s.bmdt, s.duration)
  }

  lemma RebuildsMeaning(c: Context, e: Effective, h: Element)
    requires ValidEffective(e) && h.Header? && h.boxes == AllBytes(e.prefix) && h.payload == e.payload
    ensures var p := Compact(c, e);
      Rebuild(c, h, p.fields, p.ivs, p.bmdt) ==
      Some((Chunk(h.boxes, e.description, e.bmdt, e.table, e.senc, e.payload),
            Reference(p.fields, p.ivs, p.bmdt, p.duration)))
  {
    CompactionLossless(c, e);
    SumNonNegative(e.table.durations);
  }

  lemma ReceiveFull(c: Context, ref: Reference, e: Effective, h: Element)
    requires ValidEffective(e) && h.Header? && h.full && h.boxes == AllBytes(e.prefix) && h.payload == e.payload
    requires ValidParsed(Compact(c, e))
    ensures var p := Compact(c, e);
      ReceiveHeader(c, ref, h, FullBlock(p)) == Rebuild(c, h, p.fields, p.ivs, p.bmdt)
  {
    hide Rebuild, CompactFields, FullEntry;
    var p := Compact(c, e);
    var block := FullBlock(p);
    FullFieldsRoundTrip(p);
    FullBlockShape(p);
  }

  lemma FullBlockShape(p: Parsed)
    requires ValidParsed(p)
    ensures 27 !in FullBlock(p) && 10 in FullBlock(p) && FullBlock(p)[10] == Number(p.bmdt)
    ensures IvBytes(FullBlock(p), p.fields, []) == p.ivs
  {
    assert 9 in p.fields ==> FullBlock(p)[9] == Blob(p.ivs);
  }

  lemma DeltaHasNoTime(p: Parsed, previous: Fields, ivs: seq<Byte>)
    requires ValidParsed(p) && ValidFields(previous)
    ensures 10 !in DeltaBlock(p, previous, ivs)
  {
    hide RemovedIds, DeltaEntry;
  }

  lemma ReceiveDelta(c: Context, s: State, e: Effective, h: Element)
    requires ValidEffective(e) && h.Header? && !h.full && h.boxes == AllBytes(e.prefix) && h.payload == e.payload
    requires s.Valid() && ValidParsed(Compact(c, e)) && e.bmdt == s.bmdt + s.duration
    ensures var p := Compact(c, e);
      ReceiveHeader(c, Reference(s.previous, s.ivs, s.bmdt, s.duration), h, DeltaBlock(p, s.previous, s.ivs)) ==
      Rebuild(c, h, p.fields, p.ivs, p.bmdt)
  {
    hide Rebuild, CompactFields, DeltaBlock, RemovedIds, Deleted, Patch, Kept, IvBytes;
    var p := Compact(c, e);
    DeletedRoundTrip(p, s.previous, s.ivs);
    DeltaFieldsRoundTrip(p, s.previous, s.ivs);
    DeltaIvsRoundTrip(p, s.previous, s.ivs);
    DeltaHasNoTime(p, s.previous, s.ivs);
  }

  /** One object: a receiver in step recovers the chunk and stays in step. */
  lemma StepRoundTrip(c: Context, s: State, ref: Reference, chunk: seq<Byte>, group: nat, number: nat, force: bool)
    requires c.Valid() && s.Valid() && Step(c, s, chunk, group, number, force).Ok?
    requires InStep(s, ref) || force || group != s.group
    ensures var (wire, next) := Step(c, s, chunk, group, number, force).value;
      match Receive(c, ref, wire)
      case None => false
      case Some((m, ref')) => Meaning(c, chunk) == Some(m) && InStep(next, ref')
  {
    hide Rebuild, CompactFields, ReceiveHeader, ReadObject, ReadBlock, WriteObject, WriteBlock, Read, FullBlock, DeltaBlock;
    var top := Admit(chunk).value;
    match Read(top, c) {
      case Err(_) =>
        RawRoundTrip(chunk);
      case Ok(e) =>
        CompactIsParsed(c, e);
        var p := Compact(c, e);
        var full := NeedsFull(s, p, group, number, force);
        var block := BlockOf(s, p, full);
        ObjectRoundTrip(p.prefix, full, block, p.payload);
        BlockRoundTrip(block);
        var h := Header(AllBytes(p.prefix), full, WriteBlock(block, 0), p.payload);
        RebuildsMeaning(c, e, h);
        if full {
          ReceiveFull(c, ref, e, h);
        } else {
          ReceiveDelta(c, s, e, h);
        }
    }
  }

  /** A refused chunk means nothing, in every state. */
  lemma RefusalIsStateless(c: Context, s: State, chunk: seq<Byte>, group: nat, number: nat, force: bool)
    requires c.Valid() && s.Valid()
    ensures Step(c, s, chunk, group, number, force).Err? <==> Meaning(c, chunk).None?
  {
  }

  /**
   * The run theorem: for every sequence of calls, a receiver in step with the
   * encoder recovers the meaning of every accepted chunk, in order.
   */
  lemma {:induction false} RunRoundTrip(c: Context, s: State, ref: Reference, calls: seq<Call>)
    requires c.Valid() && s.Valid() && InStep(s, ref)
    ensures ReceiveAll(c, ref, Objects(c, s, calls)) == Some(Meanings(c, calls))
    decreases |calls|
  {
    hide Step, Receive, Meaning;
    if calls != [] {
      match calls[0] {
        case Reset =>
          RunRoundTrip(c, Cleared(s), ref, calls[1..]);
          assert Meanings(c, calls) == Meanings(c, calls[1..]);
        case Encode(chunk, group, number, force) =>
          RefusalIsStateless(c, s, chunk, group, number, force);
          match Step(c, s, chunk, group, number, force) {
            case Err(_) =>
              RunRoundTrip(c, s, ref, calls[1..]);
              assert Meanings(c, calls) == Meanings(c, calls[1..]);
            case Ok((wire, next)) =>
              StepRoundTrip(c, s, ref, chunk, group, number, force);
              var (m, ref') := Receive(c, ref, wire).value;
              RunRoundTrip(c, next, ref', calls[1..]);
              assert Objects(c, s, calls)[1..] == Objects(c, next, calls[1..]);
          }
      }
    }
  }

  /** From a new encoder and a receiver that knows nothing. */
  lemma FreshRunRoundTrip(c: Context, calls: seq<Call>)
    requires c.Valid()
    ensures ReceiveAll(c, NoReference, Objects(c, Fresh, calls)) == Some(Meanings(c, calls))
  {
    RunRoundTrip(c, Fresh, NoReference, calls);
  }

  /** A receiver that joins at the first object of a new group needs no earlier object. */
  lemma TuneIn(c: Context, s: State, ref: Reference, calls: seq<Call>)
    requires c.Valid() && s.Valid() && calls != [] && calls[0].Encode?
    requires calls[0].group != s.group || calls[0].force
    requires Meaning(c, calls[0].chunk).Some?
    ensures ReceiveAll(c, ref, Objects(c, s, calls)) == Some(Meanings(c, calls))
  {
    hide Step, Receive, Meaning;
    var Encode(chunk, group, number, force) := calls[0];
    RefusalIsStateless(c, s, chunk, group, number, force);
    StepRoundTrip(c, s, ref, chunk, group, number, force);
    var (wire, next) := Step(c, s, chunk, group, number, force).value;
    var (m, ref') := Receive(c, ref, wire).value;
    RunRoundTrip(c, next, ref', calls[1..]);
    assert Objects(c, s, calls)[1..] == Objects(c, next, calls[1..]);
  }
}
