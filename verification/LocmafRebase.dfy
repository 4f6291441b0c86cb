/**
 * Rebasing LOCMAF objects: a full header's base time is rewritten, a delta
 * header needs nothing, a raw chunk is rebased as CMAF. On the encoder's own
 * objects this is the same as having encoded the shifted chunk.
 */
module LocmafRebase {
  import opened Bytes
  import opened LocmafChunk
  import opened LocmafTable
  import opened LocmafWire
  import opened LocmafCodec
  import opened LocmafEncoder
  import CmafRebase
  import Vi64

  function Later(time: nat, delta: nat): nat {
    (time + delta) % TwoTo64
  }

  /** The property block with field 10 rewritten, or None when it has none or is malformed. */
  function RebaseBlock(s: seq<Byte>, delta: nat): Option<seq<Byte>>
    decreases |s|
  {
    if s == [] then None
    else
      match Vi64.Decode(s)
      case None => None
      case Some((id, n)) =>
        match Vi64.Decode(s[n..])
        case None => None
        case Some((v, m)) =>
          var rest := s[n..][m..];
          if id % 2 == 1 then
            if v > |rest| then None
            else Prefixed(s[..n + m + v], RebaseBlock(rest[v..], delta))
          else if id == 10 then Some(s[..n] + Vi64.Encode(Later(v, delta)) + rest)
          else Prefixed(s[..n + m], RebaseBlock(rest, delta))
  }

  function Prefixed(a: seq<Byte>, r: Option<seq<Byte>>): Option<seq<Byte>> {
    if r.None? then None else Some(a + r.value)
  }

  /** The rebase of an object from an element on, or None when it has none. What the source answers is in LocmafRebaseScan. */
  ghost function RebaseObject(s: seq<Byte>, delta: nat): Option<seq<Byte>>
    decreases |s|
  {
    match Vi64.Decode(s)
    case None => None
    case Some((kind, n)) =>
      if kind == 3 then Some(s)
      else if kind == 4 then Prefixed(s[..n], CmafRebase.Rebase(s[n..], delta))
      else if kind == 1 || kind == 2 then
        match Vi64.Decode(s[n..])
        case None => None
        case Some((length, m)) =>
          var rest := s[n..][m..];
          if length > |rest| then None
          else if kind == 1 then Prefixed(s[..n + m + length], RebaseObject(rest[length..], delta))
          else
            match RebaseBlock(rest[..length], delta)
            case None => None
            case Some(block) => Some(s[..n] + Vi64.Encode(|block| % TwoTo64) + block + rest[length..])
      else None
  }

  // ---- the encoder's blocks

  lemma Concat3(a: seq<Byte>, b: seq<Byte>, c: seq<Byte>)
    ensures (a + b + c)[..|a|] == a && (a + b + c)[|a|..] == b + c && (a + b + c)[|a|..][|b|..] == c &&
      (a + b + c)[..|a| + |b|] == a + b
  {
  }

  lemma NumberRebased(id: nat, v: nat, rest: seq<Byte>, delta: nat)
    requires id < TwoTo64 && v < TwoTo64 && id % 2 == 0
    ensures RebaseBlock(WriteEntry(id, Number(v)) + rest, delta) ==
      if id == 10 then Some(WriteEntry(id, Number(Later(v, delta))) + rest)
      else Prefixed(WriteEntry(id, Number(v)), RebaseBlock(rest, delta))
  {
    hide Vi64.Encode, Vi64.Decode;
    var a, b := Vi64.Encode(id), Vi64.Encode(v);
    var s := WriteEntry(id, Number(v)) + rest;
    assert s == a + b + rest == a + (b + rest);
    Concat3(a, b, rest);
    Vi64.RoundTrip(id, b + rest);
    Vi64.RoundTrip(v, rest);
    assert a + Vi64.Encode(Later(v, delta)) + rest == WriteEntry(id, Number(Later(v, delta))) + rest;
  }

  lemma BlobRebased(id: nat, bytes: seq<Byte>, rest: seq<Byte>, delta: nat)
    requires id < TwoTo64 && id % 2 == 1 && |bytes| < 0x2000_0000
    ensures RebaseBlock(WriteEntry(id, Blob(bytes)) + rest, delta) ==
      Prefixed(WriteEntry(id, Blob(bytes)), RebaseBlock(rest, delta))
  {
    hide Vi64.Encode, Vi64.Decode, RebaseBlock;
    var a, b := Vi64.Encode(id), Vi64.Encode(|bytes|);
    var s := WriteEntry(id, Blob(bytes)) + rest;
    var head := a + b + bytes;
    assert WriteEntry(id, Blob(bytes)) == head;
    assert s == a + b + (bytes + rest) == a + (b + (bytes + rest));
    Concat3(a, b, bytes + rest);
    Vi64.RoundTrip(id, b + (bytes + rest));
    Vi64.RoundTrip(|bytes|, bytes + rest);
    assert s[..|head|] == head && s[|head|..] == rest;
    BlobSkipped(s, delta, id, |a|, |bytes|, |b|);
  }

  lemma BlobSkipped(s: seq<Byte>, delta: nat, id: nat, n: nat, length: nat, m: nat)
    requires Vi64.Decode(s) == Some((id, n)) && id % 2 == 1 && n <= |s| && Vi64.Decode(s[n..]) == Some((length, m))
    requires n + m + length <= |s|
    ensures RebaseBlock(s, delta) == Prefixed(s[..n + m + length], RebaseBlock(s[n + m + length..], delta))
  {
    hide Vi64.Decode;
    assert s[n..][m..] == s[n + m..];
    assert s[n + m..][length..] == s[n + m + length..];
  }

  lemma {:induction false} BlockRebased(block: Block, id: nat, delta: nat)
    requires ValidBlock(block) && id <= 10 && 10 in block && block[10].Number?
    ensures ValidBlock(block[10 := Number(Later(block[10].v, delta))])
    ensures RebaseBlock(WriteBlock(block, id), delta) ==
      Some(WriteBlock(block[10 := Number(Later(block[10].v, delta))], id))
    decreases 28 - id
  {
    hide WriteEntry, RebaseBlock;
    var later := block[10 := Number(Later(block[10].v, delta))];
    assert ValidEntry(10, block[10]);
    if id == 10 {
      NumberRebased(10, block[10].v, WriteBlock(block, 11), delta);
      SameFrom(block, later, 11);
    } else {
      BlockRebased(block, id + 1, delta);
      if id in block {
        assert ValidEntry(id, block[id]);
        match block[id] {
          case Number(v) => NumberRebased(id, v, WriteBlock(block, id + 1), delta);
          case Blob(b) => BlobRebased(id, b, WriteBlock(block, id + 1), delta);
        }
      } else {
        assert [] + WriteBlock(block, id + 1) == WriteBlock(block, id + 1);
        assert [] + WriteBlock(later, id + 1) == WriteBlock(later, id + 1);
      }
    }
  }

  lemma {:induction false} SameFrom(a: Block, b: Block, id: nat)
    requires ValidBlock(a) && ValidBlock(b) && id <= 28
    requires forall k :: k >= id ==> (k in a <==> k in b) && (k in a ==> a[k] == b[k])
    ensures WriteBlock(a, id) == WriteBlock(b, id)
    decreases 28 - id
  {
    hide WriteEntry;
    if id < 28 {
      SameFrom(a, b, id + 1);
    }
  }

  // ---- the encoder's objects

  lemma HeaderRebased(block: Block, payload: seq<Byte>, delta: nat)
    requires ValidBlock(block) && 10 in block && block[10].Number?
    ensures ValidBlock(block[10 := Number(Later(block[10].v, delta))])
    ensures RebaseObject(WriteHeader(true, WriteBlock(block, 0), payload), delta) ==
      Some(WriteHeader(true, WriteBlock(block[10 := Number(Later(block[10].v, delta))], 0), payload))
  {
    hide Vi64.Encode, Vi64.Decode, RebaseBlock, WriteBlock;
    var properties := WriteBlock(block, 0);
    var s := WriteHeader(true, properties, payload);
    BlockRebased(block, 0, delta);
    ElementReads(2, properties, payload);
    Vi64.LengthFits(2);
    KindIsFirst(2, properties, payload);
    assert (properties + payload)[..|properties|] == properties && (properties + payload)[|properties|..] == payload;
  }

  lemma KindIsFirst(kind: nat, body: seq<Byte>, rest: seq<Byte>)
    requires kind < TwoTo64 && |body| < TwoTo64
    ensures var s := Vi64.Encode(kind) + Vi64.Encode(|body|) + body + rest;
      s[..Vi64.Length(kind)] == Vi64.Encode(kind) &&
      s[..Vi64.Length(kind) + Vi64.Length(|body|) + |body|] == Vi64.Encode(kind) + Vi64.Encode(|body|) + body
  {
    hide Vi64.Decode;
  }

  lemma DeltaIsKept(block: Block, payload: seq<Byte>, delta: nat)
    requires ValidBlock(block)
    ensures var s := WriteHeader(false, WriteBlock(block, 0), payload); RebaseObject(s, delta) == Some(s)
  {
    hide Vi64.Encode, Vi64.Decode, WriteBlock;
    ElementReads(3, WriteBlock(block, 0), payload);
  }

  /** Boxes ahead of the header are carried over. */
  lemma {:induction false} PrefixKept(prefix: seq<Box>, rest: seq<Byte>, delta: nat)
    requires forall b | b in prefix :: Sized(b)
    ensures RebaseObject(WriteBoxes(prefix) + rest, delta) == Prefixed(WriteBoxes(prefix), RebaseObject(rest, delta))
    decreases |prefix|
  {
    hide Vi64.Encode, Vi64.Decode, Sized, BE, RebaseObject, WriteBoxes;
    var r := RebaseObject(rest, delta);
    if prefix == [] {
      NoPrefix(rest);
      assert r.Some? ==> [] + r.value == r.value;
    } else {
      assert forall b | b in prefix[1..] :: b in prefix;
      var body := FirstOfPrefix(prefix);
      var front, more := Vi64.Encode(1) + Vi64.Encode(|body|) + body, WriteBoxes(prefix[1..]);
      assert WriteBoxes(prefix) + rest == front + (more + rest);
      PrefixKept(prefix[1..], rest, delta);
      BoxKept(body, more + rest, delta);
      assert r.Some? ==> front + (more + r.value) == front + more + r.value;
    }
  }

  lemma NoPrefix(rest: seq<Byte>)
    ensures WriteBoxes([]) == [] && [] + rest == rest
  {
  }

  lemma FirstOfPrefix(prefix: seq<Box>) returns (body: seq<Byte>)
    requires prefix != [] && forall b | b in prefix :: Sized(b)
    ensures |body| < TwoTo64 && WriteBoxes(prefix) == Vi64.Encode(1) + Vi64.Encode(|body|) + body + WriteBoxes(prefix[1..])
  {
    hide Vi64.Encode;
    SizedIsShort(prefix[0]);
    body := prefix[0].all[4..];
  }

  lemma BoxKept(body: seq<Byte>, rest: seq<Byte>, delta: nat)
    requires |body| < TwoTo64
    ensures RebaseObject(Vi64.Encode(1) + Vi64.Encode(|body|) + body + rest, delta) ==
      Prefixed(Vi64.Encode(1) + Vi64.Encode(|body|) + body, RebaseObject(rest, delta))
  {
    hide Vi64.Encode, Vi64.Decode;
    ElementReads(1, body, rest);
    KindIsFirst(1, body, rest);
    assert (body + rest)[|body|..] == rest;
  }

  function ShiftParsed(p: Parsed, delta: nat): Parsed {
    p.(bmdt := Later(p.bmdt, delta))
  }

  lemma ShiftedBlock(p: Parsed, delta: nat)
    requires ValidParsed(p)
    ensures ValidParsed(ShiftParsed(p, delta))
    ensures FullBlock(ShiftParsed(p, delta)) == FullBlock(p)[10 := Number(Later(p.bmdt, delta))]
  {
    hide EntryOf;
    assert ValidParsed(ShiftParsed(p, delta));
    var a, b := FullBlock(ShiftParsed(p, delta)), FullBlock(p)[10 := Number(Later(p.bmdt, delta))];
    assert a.Keys == b.Keys;
  }

  /**
   * Rebasing commutes with encoding: the rebased full object is byte for byte the
   * object of the same chunk at the later base time.
   */
  lemma FullObjectRebased(prefix: seq<Box>, p: Parsed, payload: seq<Byte>, delta: nat)
    requires ValidParsed(p) && forall b | b in prefix :: Sized(b)
    ensures ValidParsed(ShiftParsed(p, delta))
    ensures RebaseObject(WriteObject(prefix, true, FullBlock(p), payload), delta) ==
      Some(WriteObject(prefix, true, FullBlock(ShiftParsed(p, delta)), payload))
  {
    hide FullBlock, WriteBlock, WriteHeader, WriteBoxes, RebaseObject;
    ShiftedBlock(p, delta);
    FullBlockShape(p);
    HeaderRebased(FullBlock(p), payload, delta);
    PrefixKept(prefix, WriteHeader(true, WriteBlock(FullBlock(p), 0), payload), delta);
  }

  lemma DeltaObjectRebased(prefix: seq<Box>, block: Block, payload: seq<Byte>, delta: nat)
    requires ValidBlock(block) && forall b | b in prefix :: Sized(b)
    ensures var s := WriteObject(prefix, false, block, payload); RebaseObject(s, delta) == Some(s)
  {
    hide WriteBlock, WriteHeader, WriteBoxes, RebaseObject;
    DeltaIsKept(block, payload, delta);
    PrefixKept(prefix, WriteHeader(false, WriteBlock(block, 0), payload), delta);
  }

  /** Two rebases of a full object are one by the sum. */
  lemma RebasesCompose(prefix: seq<Box>, p: Parsed, payload: seq<Byte>, first: nat, second: nat)
    requires ValidParsed(p) && forall b | b in prefix :: Sized(b)
    ensures var s := WriteObject(prefix, true, FullBlock(p), payload);
      RebaseObject(s, first).Some? &&
      RebaseObject(RebaseObject(s, first).value, second) == RebaseObject(s, first + second)
  {
    hide RebaseObject, WriteObject, FullBlock, ValidParsed, ShiftParsed, Sized;
    FullObjectRebased(prefix, p, payload, first);
    FullObjectRebased(prefix, ShiftParsed(p, first), payload, second);
    FullObjectRebased(prefix, p, payload, first + second);
    ShiftTwice(p, first, second);
  }

  lemma ShiftTwice(p: Parsed, first: nat, second: nat)
    ensures ShiftParsed(ShiftParsed(p, first), second) == ShiftParsed(p, first + second)
  {
  }

  // ---- runs

  /** The chunk's media at a later time. */
  ghost function ShiftMedia(m: Media, delta: nat): Media {
    match m
    case RawMedia(bytes) => RawMedia(match CmafRebase.Rebase(bytes, delta) case None => bytes case Some(b) => b)
    case Chunk(_, _, bmdt, _, _, _) => m.(bmdt := bmdt + delta)
  }

  /** The shift is possible: times stay within 64 bits, raw chunks can be rebased. */
  ghost predicate Shiftable(m: Media, delta: nat) {
    match m
    case RawMedia(bytes) => CmafRebase.Rebase(bytes, delta).Some? && CmafRebase.Rebase(bytes, delta).value != []
    case Chunk(_, _, bmdt, _, _, _) => bmdt + delta <= MaxU64
  }

  function ShiftReference(ref: Reference, delta: nat): Reference {
    if ref.NoReference? then ref else ref.(bmdt := ref.bmdt + delta)
  }

  lemma RawRebased(chunk: seq<Byte>, delta: nat)
    requires chunk != []
    ensures RebaseObject(WriteRaw(chunk), delta) ==
      match CmafRebase.Rebase(chunk, delta) case None => None case Some(b) => Some(WriteRaw(b))
  {
    hide CmafRebase.Rebase, Vi64.Decode;
    assert Vi64.Encode(4) == [4] by {
      Vi64.LengthFits(4);
      Vi64.Pow2Values();
    }
    Vi64.RoundTrip(4, chunk);
  }

  lemma RebuildShifted(c: Context, h: Element, fields: Fields, ivs: seq<Byte>, bmdt: nat, delta: nat)
    requires h.Header? && Rebuild(c, h, fields, ivs, bmdt).Some? && bmdt + delta <= MaxU64
    ensures var (m, ref) := Rebuild(c, h, fields, ivs, bmdt).value;
      Rebuild(c, h, fields, ivs, bmdt + delta) == Some((ShiftMedia(m, delta), ShiftReference(ref, delta)))
  {
    hide ExpandTable, ExpandDescription, ExpandSenc;
  }

  /** One object: the receiver of rebased objects sees the same chunk at the later time. */
  lemma StepShifted(c: Context, s: State, ref: Reference, chunk: seq<Byte>, group: nat, number: nat, force: bool, delta: nat)
    requires c.Valid() && s.Valid() && Step(c, s, chunk, group, number, force).Ok? && InStep(s, ref)
    requires Meaning(c, chunk).Some? && Shiftable(Meaning(c, chunk).value, delta)
    ensures Shifts(c, ref, Step(c, s, chunk, group, number, force).value.0, delta)
  {
    hide Rebuild, CompactFields, ReceiveHeader, ReadObject, ReadBlock, WriteObject, WriteBlock, Read, FullBlock, DeltaBlock,
      RebaseObject, CmafRebase.Rebase;
    var top := Admit(chunk).value;
    match Read(top, c) {
      case Err(_) =>
        RawRoundTrip(chunk);
        RawRebased(chunk, delta);
        RawRoundTrip(CmafRebase.Rebase(chunk, delta).value);
      case Ok(e) =>
        CompactIsParsed(c, e);
        var p := Compact(c, e);
        if NeedsFull(s, p, group, number, force) {
          FullShifted(c, ref, e, p, delta);
        } else {
          DeltaShifted(c, s, e, p, DeltaBlock(p, s.previous, s.ivs), delta);
        }
    }
  }

  /** What rebasing an object does to what its receiver sees. */
  ghost predicate Shifts(c: Context, ref: Reference, wire: seq<Byte>, delta: nat) {
    RebaseObject(wire, delta).Some? && Receive(c, ref, wire).Some? &&
    Receive(c, ShiftReference(ref, delta), RebaseObject(wire, delta).value) ==
      Some((ShiftMedia(Receive(c, ref, wire).value.0, delta), ShiftReference(Receive(c, ref, wire).value.1, delta)))
  }

  lemma FullShifted(c: Context, ref: Reference, e: Effective, p: Parsed, delta: nat)
    requires ValidEffective(e) && p == Compact(c, e) && ValidParsed(p) && e.bmdt + delta <= MaxU64
    requires forall b | b in p.prefix :: Sized(b)
    ensures Shifts(c, ref, WriteObject(p.prefix, true, FullBlock(p), p.payload), delta)
  {
    hide Rebuild, CompactFields, ReceiveHeader, ReadObject, ReadBlock, WriteObject, WriteBlock, FullBlock, RebaseObject,
      ShiftMedia;
    var q := ShiftParsed(p, delta);
    FullObjectRebased(p.prefix, p, p.payload, delta);
    ObjectRoundTrip(p.prefix, true, FullBlock(p), p.payload);
    ObjectRoundTrip(p.prefix, true, FullBlock(q), p.payload);
    BlockRoundTrip(FullBlock(p));
    BlockRoundTrip(FullBlock(q));
    var h := Header(AllBytes(p.prefix), true, WriteBlock(FullBlock(p), 0), p.payload);
    var k := Header(AllBytes(p.prefix), true, WriteBlock(FullBlock(q), 0), p.payload);
    RebuildsMeaning(c, e, h);
    RebuildsMeaning(c, e, k);
    RebuildShifted(c, k, p.fields, p.ivs, p.bmdt, delta);
    ReceiveFull(c, ref, e, h);
    ReceiveLater(c, ShiftReference(ref, delta), k, q);
  }

  lemma ReceiveLater(c: Context, ref: Reference, h: Element, q: Parsed)
    requires h.Header? && h.full && ValidParsed(q)
    ensures ReceiveHeader(c, ref, h, FullBlock(q)) == Rebuild(c, h, q.fields, q.ivs, q.bmdt)
  {
    hide Rebuild, FullEntry;
    FullFieldsRoundTrip(q);
    FullBlockShape(q);
  }

  lemma DeltaShifted(c: Context, s: State, e: Effective, p: Parsed, block: Block, delta: nat)
    requires s.Valid() && ValidEffective(e) && p == Compact(c, e) && ValidParsed(p) && e.bmdt + delta <= MaxU64
    requires e.bmdt == s.bmdt + s.duration && block == DeltaBlock(p, s.previous, s.ivs)
    requires forall b | b in p.prefix :: Sized(b)
    ensures Shifts(c, Reference(s.previous, s.ivs, s.bmdt, s.duration), WriteObject(p.prefix, false, block, p.payload), delta)
  {
    hide Rebuild, CompactFields, ReceiveHeader, ReadObject, ReadBlock, WriteObject, WriteBlock, DeltaBlock, RebaseObject,
      ShiftMedia;
    DeltaObjectRebased(p.prefix, block, p.payload, delta);
    ObjectRoundTrip(p.prefix, false, block, p.payload);
    BlockRoundTrip(block);
    var h := Header(AllBytes(p.prefix), false, WriteBlock(block, 0), p.payload);
    RebuildsMeaning(c, e, h);
    RebuildShifted(c, h, p.fields, p.ivs, p.bmdt, delta);
    ReceiveDelta(c, s, e, h);
    DeltaLater(c, s, e, h, delta);
  }

  lemma DeltaLater(c: Context, s: State, e: Effective, h: Element, delta: nat)
    requires ValidEffective(e) && h.Header? && !h.full && s.Valid() && ValidParsed(Compact(c, e))
    requires e.bmdt == s.bmdt + s.duration
    ensures var p := Compact(c, e);
      ReceiveHeader(c, ShiftReference(Reference(s.previous, s.ivs, s.bmdt, s.duration), delta), h,
                    DeltaBlock(p, s.previous, s.ivs)) ==
      Rebuild(c, h, p.fields, p.ivs, p.bmdt + delta)
  {
    hide Rebuild, CompactFields, DeltaBlock, RemovedIds, Deleted, Patch, Kept, IvBytes;
    var p := Compact(c, e);
    DeletedRoundTrip(p, s.previous, s.ivs);
    DeltaFieldsRoundTrip(p, s.previous, s.ivs);
    DeltaIvsRoundTrip(p, s.previous, s.ivs);
    DeltaHasNoTime(p, s.previous, s.ivs);
  }

  ghost function RebaseAll(objects: seq<seq<Byte>>, delta: nat): Option<seq<seq<Byte>>>
    decreases |objects|
  {
    if objects == [] then Some([])
    else
      var rest := RebaseAll(objects[1..], delta);
      if RebaseObject(objects[0], delta).None? || rest.None? then None
      else Some([RebaseObject(objects[0], delta).value] + rest.value)
  }

  ghost function ShiftAll(ms: seq<Media>, delta: nat): seq<Media>
    decreases |ms|
  {
    if ms == [] then [] else [ShiftMedia(ms[0], delta)] + ShiftAll(ms[1..], delta)
  }

  ghost predicate AllShiftable(c: Context, calls: seq<Call>, delta: nat)
    requires c.Valid()
  {
    forall call | call in calls :: call.Encode? ==>
      match Meaning(c, call.chunk) case None => true case Some(m) => Shiftable(m, delta)
  }

  /**
   * A looped run: rebasing every object of a run by the same delta gives a
   * receiver the same media, every chunk later by the delta.
   */
  lemma {:induction false} LoopedRun(c: Context, s: State, ref: Reference, calls: seq<Call>, delta: nat)
    requires c.Valid() && s.Valid() && InStep(s, ref) && AllShiftable(c, calls, delta)
    ensures var rebased := RebaseAll(Objects(c, s, calls), delta);
      rebased.Some? &&
      ReceiveAll(c, ShiftReference(ref, delta), rebased.value) == Some(ShiftAll(Meanings(c, calls), delta))
    decreases |calls|
  {
    hide Step, Receive, Meaning, RebaseObject, ShiftMedia, Shiftable;
    if calls != [] {
      assert AllShiftable(c, calls[1..], delta);
      match calls[0] {
        case Reset =>
          LoopedRun(c, Cleared(s), ref, calls[1..], delta);
          assert Meanings(c, calls) == Meanings(c, calls[1..]);
        case Encode(chunk, group, number, force) =>
          RefusalIsStateless(c, s, chunk, group, number, force);
          match Step(c, s, chunk, group, number, force) {
            case Err(_) =>
              LoopedRun(c, s, ref, calls[1..], delta);
              assert Meanings(c, calls) == Meanings(c, calls[1..]);
            case Ok((wire, next)) =>
              assert calls[0] in calls;
              StepRoundTrip(c, s, ref, chunk, group, number, force);
              StepShifted(c, s, ref, chunk, group, number, force, delta);
              var (m, ref') := Receive(c, ref, wire).value;
              LoopedRun(c, next, ref', calls[1..], delta);
              Unfold(c, s, calls, delta, wire, next, m);
          }
      }
    }
  }

  lemma Unfold(c: Context, s: State, calls: seq<Call>, delta: nat, wire: seq<Byte>, next: State, m: Media)
    requires c.Valid() && s.Valid() && next.Valid() && calls != [] && calls[0].Encode? && Meaning(c, calls[0].chunk) == Some(m)
    requires Step(c, s, calls[0].chunk, calls[0].group, calls[0].number, calls[0].force) == Ok((wire, next))
    ensures Objects(c, s, calls) == [wire] + Objects(c, next, calls[1..]) && Meanings(c, calls) == [m] + Meanings(c, calls[1..])
    ensures ShiftAll(Meanings(c, calls), delta) == [ShiftMedia(m, delta)] + ShiftAll(Meanings(c, calls[1..]), delta)
    ensures RebaseObject(wire, delta).Some? && RebaseAll(Objects(c, next, calls[1..]), delta).Some? ==>
      RebaseAll(Objects(c, s, calls), delta) ==
        Some([RebaseObject(wire, delta).value] + RebaseAll(Objects(c, next, calls[1..]), delta).value)
  {
    hide Step, Meaning, RebaseObject, ShiftMedia;
    assert Objects(c, s, calls)[1..] == Objects(c, next, calls[1..]);
    assert Meanings(c, calls)[1..] == Meanings(c, calls[1..]);
  }
}
