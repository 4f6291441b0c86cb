/**
 * The LOCMAF object on the wire: property blocks framed by the parity of the
 * field id, values absolute or as zigzag deltas, pre-moof boxes, header and
 * payload (sections 7 to 12 of draft-einarsson-moq-locmaf-01). Each writer has
 * its reader, and the lemmas say that the reader inverts the writer.
 */
module LocmafWire {
  import opened Bytes
  import opened LocmafChunk
  import opened LocmafTable
  import Vi64

  // ---- values

  /** `zz`: non-negative values to even numbers, negative ones to odd numbers. */
  function ZigZag(v: int): nat {
    if v >= 0 then v * 2 else -(v + 1) * 2 + 1
  }

  function UnZigZag(z: nat): int {
    if z % 2 == 0 then z / 2 else -(z / 2) - 1
  }

  const MaxList := 42_000_000

  /** The values a field can hold: 32-bit unsigned, except the signed composition offsets. */
  ghost predicate Bounded(id: nat, values: seq<int>) {
    |values| <= MaxList && Signed33(values) && (id != 5 ==> Fits32(values))
  }

  ghost predicate ValidField(id: nat, values: seq<int>) {
    Bounded(id, values) && (id % 2 == 0 ==> |values| == 1) && (id == 9 ==> values == [])
  }

  ghost predicate ValidFields(f: Fields) {
    forall id | id in f :: KnownField(id) && ValidField(id, f[id])
  }

  lemma UnionIsValid(a: Fields, b: Fields)
    requires ValidFields(a) && ValidFields(b)
    ensures ValidFields(a + b)
  {
  }

  lemma SamplesAreValid(c: Context, t: Table)
    requires ValidTable(t, |t.sizes|) && 0 < |t.sizes| <= 1_000_000
    ensures ValidFields(SampleFields(c, t))
  {
    hide DurationFields, SizeFields, FlagFields, OffsetFields, ValidFields;
    var d, s, f, o := DurationFields(c, t.durations), SizeFields(c, t.sizes), FlagFields(c, t.flags),
                      OffsetFields(t.offsets);
    PartsAreValid(c, t);
    UnionIsValid(d, s);
    UnionIsValid(d + s, f);
    UnionIsValid(d + s + f, o);
  }

  lemma PartsAreValid(c: Context, t: Table)
    requires ValidTable(t, |t.sizes|) && 0 < |t.sizes| <= 1_000_000
    ensures ValidFields(DurationFields(c, t.durations)) && ValidFields(SizeFields(c, t.sizes))
    ensures ValidFields(FlagFields(c, t.flags)) && ValidFields(OffsetFields(t.offsets))
  {
    FlagsAreValid(c, t.flags);
  }

  lemma FlagsAreValid(c: Context, flags: seq<int>)
    requires Fits32(flags) && 0 < |flags| <= 1_000_000
    ensures ValidFields(FlagFields(c, flags))
  {
  }

  lemma CompactIsValid(c: Context, e: Effective)
    requires ValidEffective(e)
    ensures ValidFields(CompactFields(c, e))
  {
    var t := e.table;
    var d, n, f, s := DescriptionFields(c, e.description), CountField(|t.sizes|), SampleFields(c, t),
                      SencFields(e.senc);
    assert ValidFields(d) && ValidFields(n);
    if t.sizes != [] {
      SamplesAreValid(c, t);
    }
    SencIsValid(e.senc, |t.sizes|);
    UnionsAreValid(d, n, f, s);
  }

  lemma UnionsAreValid(a: Fields, b: Fields, c: Fields, d: Fields)
    requires ValidFields(a) && ValidFields(b) && ValidFields(c) && ValidFields(d)
    ensures ValidFields(a + b + c + d)
  {
    hide ValidFields;
    UnionIsValid(a, b);
    UnionIsValid(a + b, c);
    UnionIsValid(a + b + c, d);
  }

  lemma SencIsValid(s: Senc, n: nat)
    requires ValidSenc(s, n, s.maps.Some?) && n <= 1_000_000
    ensures ValidFields(SencFields(s))
  {
  }

  /** In a delta header every field but the deletion list is relative to the previous object. */
  predicate Relative(full: bool, id: nat) {
    !full && id != 27
  }

  function Before(before: seq<int>, i: nat): int {
    if i < |before| then before[i] else 0
  }

  function ToWire(id: nat, full: bool, before: seq<int>, v: int, i: nat): int {
    var d := if Relative(full, id) then v - Before(before, i) else v;
    if Relative(full, id) || id == 5 then ZigZag(d) else d
  }

  function FromWire(id: nat, full: bool, before: seq<int>, z: nat, i: nat): int {
    var d := if Relative(full, id) || id == 5 then UnZigZag(z) else z;
    if Relative(full, id) then d + Before(before, i) else d
  }

  lemma WireValue(id: nat, full: bool, before: seq<int>, values: seq<int>, i: nat)
    requires i < |values| && Bounded(id, values) && Bounded(id, before)
    ensures 0 <= ToWire(id, full, before, values[i], i) < 0x8_0000_0000
    ensures FromWire(id, full, before, ToWire(id, full, before, values[i], i), i) == values[i]
  {
  }

  /** The values from index `i` on, one integer after the other. */
  function WriteList(id: nat, full: bool, before: seq<int>, values: seq<int>, i: nat): (s: seq<Byte>)
    requires i <= |values| && Bounded(id, values) && Bounded(id, before)
    ensures |s| <= 9 * (|values| - i)
    decreases |values| - i
  {
    if i == |values| then []
    else
      WireValue(id, full, before, values, i);
      Vi64.Encode(ToWire(id, full, before, values[i], i)) + WriteList(id, full, before, values, i + 1)
  }

  /** Reads integers to the end of the bytes; None when the last one is cut short. */
  function ReadList(id: nat, full: bool, before: seq<int>, s: seq<Byte>, i: nat): Option<seq<int>>
    decreases |s|
  {
    if s == [] then Some([])
    else match Vi64.Decode(s)
      case None => None
      case Some((z, n)) =>
        match ReadList(id, full, before, s[n..], i + 1)
        case None => None
        case Some(rest) => Some([FromWire(id, full, before, z, i)] + rest)
  }

  lemma {:induction false} ListRoundTrip(id: nat, full: bool, before: seq<int>, values: seq<int>, i: nat)
    requires i <= |values| && Bounded(id, values) && Bounded(id, before)
    ensures ReadList(id, full, before, WriteList(id, full, before, values, i), i) == Some(values[i..])
    decreases |values| - i
  {
    hide Vi64.Encode, Vi64.Decode, ReadList, FromWire, ToWire, Bounded;
    if i == |values| {
      ReadNothing(id, full, before, i);
    } else {
      WireValue(id, full, before, values, i);
      var z := ToWire(id, full, before, values[i], i);
      var rest := WriteList(id, full, before, values, i + 1);
      ListRoundTrip(id, full, before, values, i + 1);
      assert WriteList(id, full, before, values, i) == Vi64.Encode(z) + rest;
      ReadOne(id, full, before, z, rest, i);
      assert values[i..] == [values[i]] + values[i + 1..];
    }
  }

  lemma ReadNothing(id: nat, full: bool, before: seq<int>, i: nat)
    ensures ReadList(id, full, before, [], i) == Some([])
  {
  }

  lemma ReadOne(id: nat, full: bool, before: seq<int>, z: nat, rest: seq<Byte>, i: nat)
    requires z < TwoTo64 && ReadList(id, full, before, rest, i + 1).Some?
    ensures ReadList(id, full, before, Vi64.Encode(z) + rest, i) ==
      Some([FromWire(id, full, before, z, i)] + ReadList(id, full, before, rest, i + 1).value)
  {
    hide Vi64.Encode, Vi64.Decode, FromWire;
    Vi64.RoundTrip(z, rest);
    assert (Vi64.Encode(z) + rest)[Vi64.Length(z)..] == rest;
  }

  // ---- property blocks

  datatype Entry = Number(v: nat) | Blob(bytes: seq<Byte>)

  type Block = map<nat, Entry>

  ghost predicate ValidEntry(id: nat, e: Entry) {
    match e
    case Number(v) => id % 2 == 0 && v < TwoTo64
    case Blob(b) => id % 2 == 1 && |b| < 0x2000_0000
  }

  ghost predicate ValidBlock(block: Block) {
    forall id | id in block :: 1 <= id <= 27 && ValidEntry(id, block[id])
  }

  function WriteEntry(id: nat, e: Entry): (s: seq<Byte>)
    requires id < TwoTo64 && ValidEntry(id, e)
    ensures |s| <= 0x2000_0000 + 18
  {
    Vi64.Encode(id) + match e
    case Number(v) => Vi64.Encode(v)
    case Blob(b) => Vi64.Encode(|b|) + b
  }

  /** The entries with ids from `id` on, in ascending order of id. */
  function WriteBlock(block: Block, id: nat): (s: seq<Byte>)
    requires ValidBlock(block) && id <= 28
    ensures |s| <= (28 - id) * (0x2000_0000 + 18)
    decreases 28 - id
  {
    if id == 28 then []
    else (if id in block then WriteEntry(id, block[id]) else []) + WriteBlock(block, id + 1)
  }

  /** The first entry and the bytes after it. */
  function ReadEntry(s: seq<Byte>): (r: Option<(nat, Entry, seq<Byte>)>)
    ensures r.Some? ==> |r.value.2| < |s|
  {
    match Vi64.Decode(s)
    case None => None
    case Some((id, n)) =>
      match Vi64.Decode(s[n..])
      case None => None
      case Some((v, m)) =>
        var rest := s[n..][m..];
        if id % 2 == 0 then Some((id, Number(v), rest))
        else if v > |rest| then None
        else Some((id, Blob(rest[..v]), rest[v..]))
  }

  /** A whole property block; a repeated id makes it malformed. */
  function ReadBlock(s: seq<Byte>): Option<Block>
    decreases |s|
  {
    if s == [] then Some(map[])
    else match ReadEntry(s)
      case None => None
      case Some((id, e, rest)) =>
        match ReadBlock(rest)
        case None => None
        case Some(block) => if id in block then None else Some(block[id := e])
  }

  lemma EntryRoundTrip(id: nat, e: Entry, rest: seq<Byte>)
    requires id < TwoTo64 && ValidEntry(id, e)
    ensures ReadEntry(WriteEntry(id, e) + rest) == Some((id, e, rest))
  {
    hide Vi64.Encode, Vi64.Decode;
    var s := WriteEntry(id, e) + rest;
    var tail := (match e case Number(v) => Vi64.Encode(v) case Blob(b) => Vi64.Encode(|b|) + b) + rest;
    assert s == Vi64.Encode(id) + tail;
    Vi64.RoundTrip(id, tail);
    assert s[Vi64.Length(id)..] == tail;
    match e {
      case Number(v) =>
        Vi64.RoundTrip(v, rest);
        assert tail[Vi64.Length(v)..] == rest;
      case Blob(b) =>
        assert tail == Vi64.Encode(|b|) + (b + rest);
        Vi64.RoundTrip(|b|, b + rest);
        assert tail[Vi64.Length(|b|)..] == b + rest;
    }
  }

  function From(block: Block, id: nat): Block {
    map k | k in block && k >= id :: block[k]
  }

  lemma FromStep(block: Block, id: nat)
    requires ValidBlock(block)
    ensures id >= 28 ==> From(block, id) == map[]
    ensures id in block ==> From(block, id) == From(block, id + 1)[id := block[id]] && id !in From(block, id + 1)
    ensures id !in block ==> From(block, id) == From(block, id + 1)
  {
  }

  lemma ReadsOneMore(s: seq<Byte>, id: nat, e: Entry, rest: seq<Byte>, block: Block)
    requires ReadEntry(s) == Some((id, e, rest)) && ReadBlock(rest) == Some(block) && id !in block
    ensures ReadBlock(s) == Some(block[id := e])
  {
  }

  lemma {:induction false} BlockRoundTripFrom(block: Block, id: nat)
    requires ValidBlock(block) && id <= 28
    ensures ReadBlock(WriteBlock(block, id)) == Some(From(block, id))
    decreases 28 - id
  {
    hide WriteEntry, ReadEntry;
    FromStep(block, id);
    if id < 28 {
      var rest := WriteBlock(block, id + 1);
      BlockRoundTripFrom(block, id + 1);
      if id in block {
        EntryRoundTrip(id, block[id], rest);
        ReadsOneMore(WriteEntry(id, block[id]) + rest, id, block[id], rest, From(block, id + 1));
      } else {
        assert WriteBlock(block, id) == rest;
      }
    }
  }

  /** Reading a written block gives the same entries. */
  lemma BlockRoundTrip(block: Block)
    requires ValidBlock(block)
    ensures ReadBlock(WriteBlock(block, 0)) == Some(block)
  {
    BlockRoundTripFrom(block, 0);
    assert From(block, 0) == block;
  }

  // ---- objects

  /** Boxes ahead of the header: each as type 1, its length without the size word, its bytes. */
  function WriteBoxes(prefix: seq<Box>): seq<Byte>
    requires forall b | b in prefix :: Sized(b)
  {
    if prefix == [] then []
    else
      var b := prefix[0];
      SizedIsShort(b);
      Vi64.Encode(1) + Vi64.Encode(|b.all| - 4) + b.all[4..] + WriteBoxes(prefix[1..])
  }

  lemma SizedIsShort(b: Box)
    requires Sized(b)
    ensures 8 <= |b.all| < TwoTo32 && BE(4, |b.all|) + b.all[4..] == b.all
  {
    FromBEBound(b.all[..4]);
    Pow256Values();
    RewriteBE(b.all[..4]);
    assert b.all == b.all[..4] + b.all[4..];
  }

  function WriteObject(prefix: seq<Box>, full: bool, block: Block, payload: seq<Byte>): seq<Byte>
    requires ValidBlock(block) && forall b | b in prefix :: Sized(b)
  {
    WriteBoxes(prefix) + WriteHeader(full, WriteBlock(block, 0), payload)
  }

  function WriteRaw(chunk: seq<Byte>): seq<Byte> {
    [4] + chunk
  }

  datatype Element = RawBoxes(bytes: seq<Byte>)
                   | Header(boxes: seq<seq<Byte>>, full: bool, properties: seq<Byte>, payload: seq<Byte>)

  /** Zero or more boxes, then one header, then the payload. */
  function ReadElements(s: seq<Byte>): Option<Element>
    decreases |s|
  {
    match Vi64.Decode(s)
    case None => None
    case Some((kind, n)) =>
      match Vi64.Decode(s[n..])
      case None => None
      case Some((length, m)) =>
        var rest := s[n..][m..];
        if length > |rest| then None
        else if kind == 1 then
          if length < 4 || length > 0xFFFF_FFFB then None
          else match ReadElements(rest[length..])
            case None => None
            case Some(RawBoxes(_)) => None
            case Some(Header(boxes, full, properties, payload)) =>
              Some(Header([BE(4, length + 4) + rest[..length]] + boxes, full, properties, payload))
        else if kind == 2 || kind == 3 then Some(Header([], kind == 2, rest[..length], rest[length..]))
        else None
  }

  /** A whole object: raw boxes alone, or elements. */
  function ReadObject(s: seq<Byte>): Option<Element> {
    match Vi64.Decode(s)
    case None => None
    case Some((kind, n)) =>
      if kind == 4 then if |s| == n then None else Some(RawBoxes(s[n..])) else ReadElements(s)
  }

  function AllBytes(prefix: seq<Box>): seq<seq<Byte>> {
    seq(|prefix|, i requires 0 <= i < |prefix| => prefix[i].all)
  }

  /** A kind, a length and a body, as both element forms start. */
  lemma ElementReads(kind: nat, body: seq<Byte>, rest: seq<Byte>)
    requires kind < TwoTo64 && |body| < TwoTo64
    ensures var s := Vi64.Encode(kind) + Vi64.Encode(|body|) + body + rest;
      var n, m := Vi64.Length(kind), Vi64.Length(|body|);
      Vi64.Decode(s) == Some((kind, n)) && Vi64.Decode(s[n..]) == Some((|body|, m)) && s[n..][m..] == body + rest
  {
    hide Vi64.Encode, Vi64.Decode;
    var s := Vi64.Encode(kind) + Vi64.Encode(|body|) + body + rest;
    var n, m := Vi64.Length(kind), Vi64.Length(|body|);
    var tail := Vi64.Encode(|body|) + (body + rest);
    assert s == Vi64.Encode(kind) + tail;
    Vi64.RoundTrip(kind, tail);
    assert s[n..] == tail;
    Vi64.RoundTrip(|body|, body + rest);
    assert tail[m..] == body + rest;
  }

  lemma HeaderReads(full: bool, properties: seq<Byte>, payload: seq<Byte>)
    requires |properties| < TwoTo64
    ensures ReadElements(WriteHeader(full, properties, payload)) == Some(Header([], full, properties, payload))
  {
    hide Vi64.Encode, Vi64.Decode;
    ElementReads(if full then 2 else 3, properties, payload);
    assert (properties + payload)[..|properties|] == properties;
    assert (properties + payload)[|properties|..] == payload;
  }

  function WriteHeader(full: bool, properties: seq<Byte>, payload: seq<Byte>): seq<Byte>
    requires |properties| < TwoTo64
  {
    Vi64.Encode(if full then 2 else 3) + Vi64.Encode(|properties|) + properties + payload
  }

  /** The boxes read so far in front of what the rest of the object reads as. */
  lemma ReadsBoxBefore(body: seq<Byte>, rest: seq<Byte>, h: Element)
    requires 4 <= |body| <= 0xFFFF_FFFB && ReadElements(rest) == Some(h) && h.Header?
    ensures ReadElements(Vi64.Encode(1) + Vi64.Encode(|body|) + body + rest) ==
      Some(h.(boxes := [BE(4, |body| + 4) + body] + h.boxes))
  {
    hide Vi64.Encode, Vi64.Decode;
    ElementReads(1, body, rest);
    assert (body + rest)[..|body|] == body && (body + rest)[|body|..] == rest;
  }

  lemma {:induction false} BoxesRead(prefix: seq<Box>, header: seq<Byte>, h: Element)
    requires ReadElements(header) == Some(h) && h.Header? && h.boxes == []
    requires forall b | b in prefix :: Sized(b)
    ensures ReadElements(WriteBoxes(prefix) + header) == Some(h.(boxes := AllBytes(prefix)))
  {
    hide Vi64.Encode, Vi64.Decode, ReadElements, Sized, BE;
    if prefix == [] {
      assert WriteBoxes(prefix) + header == header;
      assert AllBytes(prefix) == [];
    } else {
      var b := prefix[0];
      SizedIsShort(b);
      var body, rest := b.all[4..], WriteBoxes(prefix[1..]) + header;
      BoxesRead(prefix[1..], header, h);
      ReadsBoxBefore(body, rest, h.(boxes := AllBytes(prefix[1..])));
      assert WriteBoxes(prefix) + header == Vi64.Encode(1) + Vi64.Encode(|body|) + body + rest;
      assert AllBytes(prefix) == [b.all] + AllBytes(prefix[1..]);
    }
  }

  /** An object with a header never starts with the raw-boxes kind. */
  lemma StartsAsElement(prefix: seq<Box>, full: bool, properties: seq<Byte>, payload: seq<Byte>)
    requires |properties| < TwoTo64 && forall b | b in prefix :: Sized(b)
    ensures var s := WriteBoxes(prefix) + WriteHeader(full, properties, payload);
      ReadObject(s) == ReadElements(s)
  {
    hide Vi64.Encode, Vi64.Decode;
    var header := WriteHeader(full, properties, payload);
    if prefix == [] {
      assert WriteBoxes(prefix) + header == header;
      ElementReads(if full then 2 else 3, properties, payload);
    } else {
      var b := prefix[0];
      SizedIsShort(b);
      var body, rest := b.all[4..], WriteBoxes(prefix[1..]) + header;
      assert WriteBoxes(prefix) + header == Vi64.Encode(1) + Vi64.Encode(|body|) + body + rest;
      ElementReads(1, body, rest);
    }
  }

  /** Reading a written object gives its boxes, its header kind, its entries and its payload. */
  lemma ObjectRoundTrip(prefix: seq<Box>, full: bool, block: Block, payload: seq<Byte>)
    requires ValidBlock(block) && forall b | b in prefix :: Sized(b)
    ensures ReadObject(WriteObject(prefix, full, block, payload)) ==
      Some(Header(AllBytes(prefix), full, WriteBlock(block, 0), payload))
  {
    var properties := WriteBlock(block, 0);
    HeaderReads(full, properties, payload);
    BoxesRead(prefix, WriteHeader(full, properties, payload), Header([], full, properties, payload));
    StartsAsElement(prefix, full, properties, payload);
  }

  lemma RawRoundTrip(chunk: seq<Byte>)
    requires chunk != []
    ensures ReadObject(WriteRaw(chunk)) == Some(RawBoxes(chunk))
  {
    assert Vi64.Encode(4) == [4] by {
      Vi64.LengthFits(4);
      Vi64.Pow2Values();
    }
    Vi64.RoundTrip(4, chunk);
  }

  // ---- the loop of `field`

  /** The value loop of `field`. */
  method LoopValues(id: nat, full: bool, before: seq<int>, values: seq<int>) returns (data: seq<Byte>)
    requires Bounded(id, values) && Bounded(id, before)
    ensures data == WriteList(id, full, before, values, 0)
  {
    hide Vi64.Encode, Vi64.Decode, WriteList, Bounded, ToWire;
    data := [];
    var i := 0;
    while i < |values|
      invariant 0 <= i <= |values|
      invariant data + WriteList(id, full, before, values, i) == WriteList(id, full, before, values, 0)
    {
      var v := values[i];
      if !full && id != 27 {
        v := v - (if i < |before| then before[i] else 0);
      }
      var w := if (!full && id != 27) || id == 5 then ZigZag(v) else v;
      ListStep(id, full, before, values, i, w);
      data := Vi64.Append(data, w);
      i := i + 1;
    }
    ListEnds(id, full, before, values);
  }

  lemma ListStep(id: nat, full: bool, before: seq<int>, values: seq<int>, i: nat, w: int)
    requires i < |values| && Bounded(id, values) && Bounded(id, before)
    requires var v := values[i] - if !full && id != 27 then (if i < |before| then before[i] else 0) else 0;
      w == if (!full && id != 27) || id == 5 then ZigZag(v) else v
    ensures 0 <= w < TwoTo64
    ensures WriteList(id, full, before, values, i) == Vi64.Encode(w) + WriteList(id, full, before, values, i + 1)
  {
    hide Vi64.Encode;
    WireValue(id, full, before, values, i);
  }

  lemma ListEnds(id: nat, full: bool, before: seq<int>, values: seq<int>)
    requires Bounded(id, values) && Bounded(id, before)
    ensures WriteList(id, full, before, values, |values|) == []
  {
  }

  function EntryOf(id: nat, full: bool, before: seq<int>, values: seq<int>): (e: Entry)
    requires Bounded(id, values) && Bounded(id, before) && (id % 2 == 0 ==> |values| == 1)
    ensures ValidEntry(id, e)
  {
    if id % 2 == 1 then Blob(WriteList(id, full, before, values, 0))
    else
      WireValue(id, full, before, values, 0);
      Number(ToWire(id, full, before, values[0], 0))
  }

  /** `field`: id, length for an odd id, and the values. */
  method WriteField(out0: seq<Byte>, id: nat, values: seq<int>, full: bool, before: seq<int>)
    returns (out: seq<Byte>)
    requires id < TwoTo64
    requires Bounded(id, values) && Bounded(id, before) && (id % 2 == 0 ==> |values| == 1)
    ensures out == out0 + WriteEntry(id, EntryOf(id, full, before, values))
  {
    hide Vi64.Encode, Vi64.Decode;
    out := Vi64.Append(out0, id);
    var data := LoopValues(id, full, before, values);
    if id % 2 == 1 {
      out := Vi64.Append(out, |data|);
    } else {
      WireValue(id, full, before, values, 0);
      assert WriteList(id, full, before, values, 1) == [];
    }
    out := out + data;
  }
}
