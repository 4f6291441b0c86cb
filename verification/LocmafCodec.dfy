/**
 * Full and delta headers: which entries the encoder emits for a chunk, and how a
 * receiver turns an object back into a chunk (sections 10.4, 11 and 12 of
 * draft-einarsson-moq-locmaf-01).
 */
module LocmafCodec {
  import opened Bytes
  import opened LocmafChunk
  import opened LocmafTable
  import opened LocmafWire

  // ---- what the encoder emits

  /** The ids of the previous table that the new one lacks, in ascending order, from `id` on. */
  function RemovedIds(previous: Fields, fields: Fields, id: nat): (r: seq<int>)
    requires id <= 28
    ensures |r| <= 28 - id && forall i | 0 <= i < |r| :: id <= r[i] < 28
    decreases 28 - id
  {
    if id == 28 then []
    else (if id in previous && id !in fields then [id] else []) + RemovedIds(previous, fields, id + 1)
  }

  lemma {:induction false} RemovedExactly(previous: Fields, fields: Fields, id: nat, k: nat)
    requires id <= 28
    ensures k in RemovedIds(previous, fields, id) <==> id <= k < 28 && k in previous && k !in fields
    decreases 28 - id
  {
    if id < 28 {
      RemovedExactly(previous, fields, id + 1, k);
      var rest := RemovedIds(previous, fields, id + 1);
      assert k in [id] + rest <==> k == id || k in rest;
      assert [] + rest == rest;
    }
  }

  ghost predicate ValidParsed(p: Parsed) {
    ValidFields(p.fields) && |p.ivs| <= 16_000_000 && p.bmdt < TwoTo64 && (9 !in p.fields ==> p.ivs == [])
  }

  function FullEntry(p: Parsed, id: nat): (e: Entry)
    requires ValidParsed(p) && (id in p.fields || id == 10)
    ensures ValidEntry(id, e)
  {
    if id == 10 then Number(p.bmdt) else if id == 9 then Blob(p.ivs) else EntryOf(id, true, [], p.fields[id])
  }

  function FullBlock(p: Parsed): (block: Block)
    requires ValidParsed(p)
    ensures ValidBlock(block)
  {
    map id | id in p.fields.Keys + {10} :: FullEntry(p, id)
  }

  function PreviousValues(previous: Fields, id: nat): (v: seq<int>)
    requires ValidFields(previous)
    ensures Bounded(id, v)
  {
    if id in previous then previous[id] else []
  }

  /** The ids a delta header carries: new or changed fields, and changed IV bytes. */
  function ChangedIds(p: Parsed, previous: Fields, ivs: seq<Byte>): (r: set<nat>)
    ensures r <= p.fields.Keys
  {
    set id | id in p.fields && if id == 9 then !(9 in previous && p.ivs == ivs)
                               else id !in previous || p.fields[id] != previous[id]
  }

  function DeltaEntry(p: Parsed, previous: Fields, id: nat): (e: Entry)
    requires ValidParsed(p) && ValidFields(previous) && (id in p.fields || id == 27)
    ensures ValidEntry(id, e)
  {
    if id == 27 then EntryOf(27, false, [], RemovedIds(previous, p.fields, 0))
    else if id == 9 then Blob(p.ivs)
    else EntryOf(id, false, PreviousValues(previous, id), p.fields[id])
  }

  function DeltaIds(p: Parsed, previous: Fields, ivs: seq<Byte>): (r: set<nat>)
    requires ValidParsed(p)
    ensures r <= p.fields.Keys + {27}
  {
    ChangedIds(p, previous, ivs) + (if RemovedIds(previous, p.fields, 0) != [] then {27} else {})
  }

  function DeltaBlock(p: Parsed, previous: Fields, ivs: seq<Byte>): (block: Block)
    requires ValidParsed(p) && ValidFields(previous)
    ensures ValidBlock(block)
  {
    map id | id in DeltaIds(p, previous, ivs) :: DeltaEntry(p, previous, id)
  }

  // ---- the receiver

  /** The reference a delta header applies to: the last chunk's table and times, or none. */
  datatype Reference = NoReference | Reference(fields: Fields, ivs: seq<Byte>, bmdt: nat, duration: nat)

  /** One received object: raw boxes, or a chunk with its effective values. */
  datatype Media = RawMedia(bytes: seq<Byte>)
                 | Chunk(boxes: seq<seq<Byte>>, description: int, bmdt: nat, table: Table, senc: Senc,
                         payload: seq<Byte>)

  /** The values of one entry. */
  function EntryValues(id: nat, full: bool, before: seq<int>, e: Entry): Option<seq<int>> {
    match e
    case Number(z) => Some([FromWire(id, full, before, z, 0)])
    case Blob(b) => if id == 9 then Some([]) else ReadList(id, full, before, b, 0)
  }

  lemma EntryValuesRoundTrip(id: nat, full: bool, before: seq<int>, values: seq<int>)
    requires Bounded(id, values) && Bounded(id, before) && (id % 2 == 0 ==> |values| == 1) && id != 9
    ensures EntryValues(id, full, before, EntryOf(id, full, before, values)) == Some(values)
  {
    if id % 2 == 1 {
      ListRoundTrip(id, full, before, values, 0);
      assert values[0..] == values;
    } else {
      WireValue(id, full, before, values, 0);
      assert values == [values[0]];
    }
  }

  function KnownIds(block: Block): set<nat> {
    set id | id in block && KnownField(id)
  }

  function FieldsOfFull(block: Block): Option<Fields> {
    var ids := KnownIds(block);
    if exists id | id in ids :: EntryValues(id, true, [], block[id]).None? then None
    else Some(map id | id in ids :: EntryValues(id, true, [], block[id]).value)
  }

  /** The deletion list of a delta header; none is the empty list. */
  function Deleted(block: Block): Option<seq<int>> {
    if 27 in block then EntryValues(27, false, [], block[27]) else Some([])
  }

  function Kept(fields: Fields, deleted: seq<int>): Fields {
    map id | id in fields && id !in deleted :: fields[id]
  }

  /** Deletions first, then each carried field relative to what is left of the reference. */
  function Patch(kept: Fields, block: Block): Option<Fields> {
    var ids := KnownIds(block);
    if exists id | id in ids :: EntryValues(id, false, if id in kept then kept[id] else [], block[id]).None? then None
    else
      Some(map id | id in kept.Keys + ids ::
        if id in ids then EntryValues(id, false, if id in kept then kept[id] else [], block[id]).value else kept[id])
  }

  function IvBytes(block: Block, fields: Fields, before: seq<Byte>): seq<Byte> {
    if 9 !in fields then [] else if 9 in block && block[9].Blob? then block[9].bytes else before
  }

  /** The chunk with this table: its effective values, and the reference it leaves behind. */
  function Rebuild(c: Context, h: Element, fields: Fields, ivs: seq<Byte>, bmdt: nat): Option<(Media, Reference)>
    requires h.Header?
  {
    match ExpandTable(c, fields, |h.payload|)
    case None => None
    case Some(t) =>
      var duration := Sum(t.durations);
      if duration < 0 then None
      else Some((Chunk(h.boxes, ExpandDescription(c, fields), bmdt, t, ExpandSenc(fields, ivs), h.payload),
                 Reference(fields, ivs, bmdt, duration)))
  }

  function ReceiveHeader(c: Context, ref: Reference, h: Element, block: Block): Option<(Media, Reference)>
    requires h.Header?
  {
    if h.full then
      if 27 in block || 10 !in block || !block[10].Number? then None
      else match FieldsOfFull(block)
        case None => None
        case Some(fields) => Rebuild(c, h, fields, IvBytes(block, fields, []), block[10].v)
    else if ref.NoReference? || 10 in block then None
    else match Deleted(block)
      case None => None
      case Some(deleted) =>
        match Patch(Kept(ref.fields, deleted), block)
        case None => None
        case Some(fields) => Rebuild(c, h, fields, IvBytes(block, fields, ref.ivs), ref.bmdt + ref.duration)
  }

  /** One object received: its media and the reference for the next one, or malformed. */
  function Receive(c: Context, ref: Reference, wire: seq<Byte>): Option<(Media, Reference)> {
    match ReadObject(wire)
    case None => None
    case Some(RawBoxes(bytes)) => Some((RawMedia(bytes), NoReference))
    case Some(Header(boxes, full, properties, payload)) =>
      match ReadBlock(properties)
      case None => None
      case Some(block) => ReceiveHeader(c, ref, Header(boxes, full, properties, payload), block)
  }

  // ---- the receiver undoes the encoder

  lemma FullEntryReads(p: Parsed, id: nat)
    requires ValidParsed(p) && id in p.fields
    ensures EntryValues(id, true, [], FullEntry(p, id)) == Some(p.fields[id])
  {
    if id != 9 {
      EntryValuesRoundTrip(id, true, [], p.fields[id]);
    }
  }

  lemma FullFieldsRoundTrip(p: Parsed)
    requires ValidParsed(p)
    ensures FieldsOfFull(FullBlock(p)) == Some(p.fields)
  {
    hide EntryValues, FullEntry;
    var block := FullBlock(p);
    var ids := KnownIds(block);
    assert ids == p.fields.Keys;
    forall id | id in ids
      ensures EntryValues(id, true, [], block[id]) == Some(p.fields[id])
    {
      FullEntryReads(p, id);
    }
    assert (map id | id in ids :: EntryValues(id, true, [], block[id]).value) == p.fields;
  }

  lemma DeletedRoundTrip(p: Parsed, previous: Fields, ivs: seq<Byte>)
    requires ValidParsed(p) && ValidFields(previous)
    ensures Deleted(DeltaBlock(p, previous, ivs)) == Some(RemovedIds(previous, p.fields, 0))
  {
    hide RemovedIds, EntryOf, EntryValues;
    var removed := RemovedIds(previous, p.fields, 0);
    var block := DeltaBlock(p, previous, ivs);
    EntryValuesRoundTrip(27, false, [], removed);
    assert 27 !in p.fields;
    assert removed != [] ==> 27 in block && block[27] == EntryOf(27, false, [], removed);
  }

  lemma KeptExactly(p: Parsed, previous: Fields, id: nat)
    requires ValidParsed(p) && ValidFields(previous)
    ensures var kept := Kept(previous, RemovedIds(previous, p.fields, 0));
      (id in kept <==> id in previous && id in p.fields) && (id in kept ==> kept[id] == previous[id])
  {
    hide RemovedIds;
    RemovedExactly(previous, p.fields, 0, id);
  }

  lemma DeltaEntryReads(p: Parsed, previous: Fields, id: nat)
    requires ValidParsed(p) && ValidFields(previous) && id in p.fields
    ensures EntryValues(id, false, PreviousValues(previous, id), DeltaEntry(p, previous, id)) == Some(p.fields[id])
  {
    if id != 9 {
      EntryValuesRoundTrip(id, false, PreviousValues(previous, id), p.fields[id]);
    }
  }

  lemma PatchExactly(kept: Fields, block: Block, target: Fields)
    requires kept.Keys + KnownIds(block) == target.Keys
    requires forall id | id in kept && id !in KnownIds(block) :: kept[id] == target[id]
    requires forall id | id in KnownIds(block) ::
      EntryValues(id, false, if id in kept then kept[id] else [], block[id]) == Some(target[id])
    ensures Patch(kept, block) == Some(target)
  {
    hide EntryValues;
    var ids := KnownIds(block);
    assert (map id | id in kept.Keys + ids ::
              if id in ids then EntryValues(id, false, if id in kept then kept[id] else [], block[id]).value
              else kept[id]) == target;
  }

  /** Patching what is left of the previous table with the carried fields gives the new table. */
  lemma DeltaFieldsRoundTrip(p: Parsed, previous: Fields, ivs: seq<Byte>)
    requires ValidParsed(p) && ValidFields(previous)
    ensures Patch(Kept(previous, RemovedIds(previous, p.fields, 0)), DeltaBlock(p, previous, ivs)) == Some(p.fields)
  {
    hide EntryValues, DeltaEntry, RemovedIds, Kept;
    var block := DeltaBlock(p, previous, ivs);
    var kept := Kept(previous, RemovedIds(previous, p.fields, 0));
    var ids := KnownIds(block);
    assert ids == ChangedIds(p, previous, ivs);
    forall id: nat
      ensures (id in kept <==> id in previous && id in p.fields) && (id in kept ==> kept[id] == previous[id])
      ensures id in ids ==>
        EntryValues(id, false, if id in kept then kept[id] else [], block[id]) == Some(p.fields[id])
    {
      KeptExactly(p, previous, id);
      if id in ids {
        DeltaEntryReads(p, previous, id);
        assert (if id in kept then kept[id] else []) == PreviousValues(previous, id);
      }
    }
    assert kept.Keys + ids == p.fields.Keys;
    assert forall id | id in p.fields && id !in ids :: id in kept && kept[id] == p.fields[id];
    PatchExactly(kept, block, p.fields);
  }

  lemma DeltaIvsRoundTrip(p: Parsed, previous: Fields, ivs: seq<Byte>)
    requires ValidParsed(p) && ValidFields(previous)
    ensures IvBytes(DeltaBlock(p, previous, ivs), p.fields, ivs) == p.ivs
  {
    assert 9 in DeltaIds(p, previous, ivs) ==> DeltaBlock(p, previous, ivs)[9] == Blob(p.ivs);
  }
}
