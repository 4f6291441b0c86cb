/**
 * The scans of `rebase_locmaf_timestamps` with their 64-bit cursor. The length of an
 * odd property may end past the block; the unsigned difference and sum then wrap, and
 * the cursor can leap back into the bytes already read. When it does not, the scan
 * is the rebase of the block; when it does, it may fail, find a stray field, or never end.
 */
module LocmafRebaseScan {
  import opened Bytes
  import opened LocmafRebase
  import CmafRebase
  import CmafRebaseInPlace
  import Vi64

  // ---- one entry of a block, read from the whole payload

  /** An integer that was read, unless it takes more bytes than there are. */
  function Inside(r: Option<(nat, nat)>, limit: nat): Option<(nat, nat)> {
    if r.Some? && r.value.1 > limit then None else r
  }

  lemma DecodePart(part: seq<Byte>, more: seq<Byte>)
    ensures Vi64.Decode(part).Some? ==> Vi64.Decode(part + more) == Vi64.Decode(part)
    ensures Vi64.Decode(part).None? && Vi64.Decode(part + more).Some? ==> Vi64.Decode(part + more).value.1 > |part|
  {
    if part == [] {
      assert part + more == more;
    } else if Vi64.Decode(part).Some? {
      var n := Vi64.Decode(part).value.1;
      assert (part + more)[1..n] == part[1..n];
    }
  }

  lemma PrefixedTwice(a: seq<Byte>, b: seq<Byte>, r: Option<seq<Byte>>)
    ensures Prefixed(a, Prefixed(b, r)) == Prefixed(a + b, r)
  {
    if r.Some? {
      assert a + (b + r.value) == a + b + r.value;
    }
  }

  lemma PrefixedNothing(r: Option<seq<Byte>>)
    ensures Prefixed([], r) == r
  {
    if r.Some? {
      assert [] + r.value == r.value;
    }
  }

  /** What the scan does at an entry, in terms of the whole payload. */
  function EntryResult(payload: seq<Byte>, cursor: nat, end: nat, delta: nat): Option<seq<Byte>>
    requires cursor < end <= |payload|
  {
    match Vi64.Decode(payload[cursor..])
    case None => None
    case Some((id, n)) =>
      if cursor + n > end then None
      else
        match Vi64.Decode(payload[cursor + n..])
        case None => None
        case Some((v, m)) =>
          var at := cursor + n + m;
          if at > end then None
          else if id % 2 == 1 then
            if v > end - at then None
            else Prefixed(payload[cursor..at + v], RebaseBlock(payload[at + v..end], delta))
          else if id == 10 then Some(payload[cursor..cursor + n] + Vi64.Encode(Later(v, delta)) + payload[at..end])
          else Prefixed(payload[cursor..at], RebaseBlock(payload[at..end], delta))
  }

  lemma EntryAt(payload: seq<Byte>, cursor: nat, end: nat, delta: nat)
    requires cursor < end <= |payload|
    ensures RebaseBlock(payload[cursor..end], delta) == EntryResult(payload, cursor, end, delta)
  {
    hide Vi64.Decode, Vi64.Encode, Prefixed, Later, RebaseBlock;
    var rest := payload[cursor..end];
    EntryParts(payload, cursor, end);
    EntryUnread(rest, delta);
    if Vi64.Decode(rest).Some? {
      var (id, n) := Vi64.Decode(rest).value;
      if Vi64.Decode(rest[n..]).Some? {
        var (v, m) := Vi64.Decode(rest[n..]).value;
        EntryRead(rest, delta);
        Cut(payload, cursor, end, n);
        Cut(payload, cursor, end, n + m);
        if v <= end - cursor - n - m {
          Cut(payload, cursor, end, n + m + v);
        }
      }
    }
  }

  lemma Cut(payload: seq<Byte>, cursor: nat, end: nat, k: nat)
    requires cursor + k <= end <= |payload|
    ensures payload[cursor..end][..k] == payload[cursor..cursor + k]
    ensures payload[cursor..end][k..] == payload[cursor + k..end]
  {
  }

  lemma EntryUnread(s: seq<Byte>, delta: nat)
    requires s != []
    ensures Vi64.Decode(s).None? ==> RebaseBlock(s, delta) == None
    ensures Vi64.Decode(s).Some? && Vi64.Decode(s[Vi64.Decode(s).value.1..]).None? ==> RebaseBlock(s, delta) == None
  {
    hide Vi64.Decode, Vi64.Encode;
  }

  /** One entry of a block, with offsets from its start. */
  lemma EntryRead(s: seq<Byte>, delta: nat)
    requires s != [] && Vi64.Decode(s).Some? && Vi64.Decode(s[Vi64.Decode(s).value.1..]).Some?
    ensures var (id, n) := Vi64.Decode(s).value;
      var (v, m) := Vi64.Decode(s[n..]).value;
      var at := n + m;
      RebaseBlock(s, delta) ==
        if id % 2 == 1 then
          if v > |s| - at then None else Prefixed(s[..at + v], RebaseBlock(s[at + v..], delta))
        else if id == 10 then Some(s[..n] + Vi64.Encode(Later(v, delta)) + s[at..])
        else Prefixed(s[..at], RebaseBlock(s[at..], delta))
  {
    hide Vi64.Decode, Vi64.Encode, Prefixed, Later;
    var (id, n) := Vi64.Decode(s).value;
    var (v, m) := Vi64.Decode(s[n..]).value;
    DropOfDrop(s, n, m);
    if v <= |s| - n - m {
      DropOfDrop(s, n + m, v);
    }
  }

  /** Integers read from the block alone and from the whole payload. */
  lemma EntryParts(payload: seq<Byte>, cursor: nat, end: nat)
    requires cursor < end <= |payload|
    ensures var rest := payload[cursor..end];
      Vi64.Decode(rest) == Inside(Vi64.Decode(payload[cursor..]), end - cursor) &&
      (Vi64.Decode(rest).Some? ==>
         var n := Vi64.Decode(rest).value.1;
         n <= |rest| && rest[n..] == payload[cursor + n..end] &&
         Vi64.Decode(rest[n..]) == Inside(Vi64.Decode(payload[cursor + n..]), end - cursor - n))
  {
    hide Vi64.Decode, Vi64.Encode;
    var rest := payload[cursor..end];
    assert payload[cursor..] == rest + payload[end..];
    DecodePart(rest, payload[end..]);
    if Vi64.Decode(rest).Some? {
      var n := Vi64.Decode(rest).value.1;
      Cuts(payload, cursor, end, n, 0);
      DecodePart(payload[cursor + n..end], payload[end..]);
    }
  }

  lemma Cuts(payload: seq<Byte>, cursor: nat, end: nat, n: nat, m: nat)
    requires cursor + n + m <= end <= |payload|
    ensures var rest := payload[cursor..end];
      rest[..n] == payload[cursor..cursor + n] && rest[n..] == payload[cursor + n..end] &&
      rest[..n + m] == payload[cursor..cursor + n + m] && rest[n..][m..] == payload[cursor + n + m..end] &&
      payload[cursor + n..] == payload[cursor + n..end] + payload[end..]
  {
  }

  // ---- the scan of a block, turn by turn

  /** Two integers read one after the other: where the second stands, and what follows it. */
  datatype Property = Property(id: nat, offset: nat, value: nat, after: nat)

  function ReadProperty(payload: seq<Byte>, cursor: nat): (r: Option<Property>)
    requires cursor <= |payload|
    ensures r.Some? ==> cursor < r.value.offset < r.value.after <= |payload|
  {
    match Vi64.Decode(payload[cursor..])
    case None => None
    case Some((id, n)) =>
      match Vi64.Decode(payload[cursor + n..])
      case None => None
      case Some((v, m)) => Some(Property(id, cursor + n, v, cursor + n + m))
  }

  /** One turn of the loop: on to another offset, stopped at the time field, or stopped in failure. */
  datatype Turn = Next(cursor: nat) | Field(offset: nat, value: nat, after: nat) | Failure

  function TurnAt(payload: seq<Byte>, end: nat, cursor: nat): Turn
    requires end <= |payload|
  {
    if cursor >= end then Failure
    else
      match ReadProperty(payload, cursor)
      case None => Failure
      case Some(p) =>
        if p.id % 2 == 1 then
          if (end - p.after) % TwoTo64 < p.value then Failure else Next((p.after + p.value) % TwoTo64)
        else if p.after > end then Failure
        else if p.id == 10 then Field(p.offset, p.value, p.after)
        else Next(p.after)
  }

  /** How the scan stops within a number of turns, if it does. */
  function Scan(payload: seq<Byte>, end: nat, cursor: nat, turns: nat): Option<Turn>
    requires end <= |payload|
    decreases turns
  {
    if turns == 0 then None
    else
      match TurnAt(payload, end, cursor)
      case Next(c) => Scan(payload, end, c, turns - 1)
      case t => Some(t)
  }

  /** The block with the field found rewritten; a field ahead of the block is not one of its fields. */
  function Rewritten(payload: seq<Byte>, begin: nat, end: nat, delta: nat, t: Turn): Option<seq<Byte>>
    requires begin <= end <= |payload|
  {
    if t.Field? && begin <= t.offset <= t.after <= end
    then Some(payload[begin..t.offset] + Vi64.Encode(Later(t.value, delta)) + payload[t.after..end])
    else None
  }

  /** The scan of a block stops, and not at a field ahead of the block: those are the blocks the source can answer. */
  predicate BlockSettles(payload: seq<Byte>, begin: nat, end: nat)
    requires begin <= end <= |payload|
  {
    var t := Scan(payload, end, begin, end + 1);
    t.Some? && (t.value.Field? ==> begin <= t.value.offset)
  }

  /** The length of an odd property ends past the block, and the wrapped sum lands in the block or ahead of it. */
  predicate Leaps(payload: seq<Byte>, end: nat, cursor: nat)
    requires cursor < end <= |payload|
  {
    var p := ReadProperty(payload, cursor);
    p.Some? && p.value.id % 2 == 1 && p.value.after > end &&
    var t := TurnAt(payload, end, cursor);
    t.Next? && t.cursor <= end
  }

  /** Where the cursor first leaps to. */
  function FirstLeap(payload: seq<Byte>, end: nat, cursor: nat): Option<nat>
    requires end <= |payload| < TwoTo64
    decreases end - cursor
  {
    if cursor >= end then None
    else
      var t := TurnAt(payload, end, cursor);
      if t.Next? then
        if Leaps(payload, end, cursor) then Some(t.cursor) else FirstLeap(payload, end, t.cursor)
      else None
  }

  lemma {:induction false} ScanOnce(payload: seq<Byte>, end: nat, cursor: nat, turns: nat, more: nat)
    requires end <= |payload| && turns <= more && Scan(payload, end, cursor, turns).Some?
    ensures Scan(payload, end, cursor, more) == Scan(payload, end, cursor, turns)
    decreases turns
  {
    hide TurnAt;
    match TurnAt(payload, end, cursor) {
      case Next(c) => ScanOnce(payload, end, c, turns - 1, more - 1);
      case _ =>
    }
  }

  /** The offsets of a scan of exactly so many turns are pairwise different. */
  lemma {:induction false} Visited(payload: seq<Byte>, end: nat, cursor: nat, turns: nat) returns (offsets: set<nat>)
    requires end <= |payload| && turns > 0
    requires Scan(payload, end, cursor, turns).Some? && Scan(payload, end, cursor, turns - 1).None?
    ensures |offsets| == turns - 1 && forall c | c in offsets :: c < end && Scan(payload, end, c, turns).Some?
    decreases turns
  {
    offsets := {};
    if turns > 1 {
      var next := TurnAt(payload, end, cursor).cursor;
      var rest := Visited(payload, end, next, turns - 1);
      offsets := rest + {cursor};
      forall c | c in rest
        ensures Scan(payload, end, c, turns).Some?
      {
        ScanOnce(payload, end, c, turns - 1, turns);
      }
    }
  }

  lemma {:induction false} FewBelow(s: set<nat>, n: nat)
    requires forall x | x in s :: x < n
    ensures |s| <= n
  {
    if n > 0 {
      FewBelow(s - {n - 1}, n - 1);
    } else {
      assert s == {};
    }
  }

  /** A scan that has not stopped after one turn for each offset and one more never stops. */
  lemma {:induction false} StopsSoonOrNever(payload: seq<Byte>, end: nat, cursor: nat, turns: nat)
    requires end <= |payload| && Scan(payload, end, cursor, turns).Some?
    ensures Scan(payload, end, cursor, end + 1) == Scan(payload, end, cursor, turns)
    decreases turns
  {
    if turns <= end + 1 {
      ScanOnce(payload, end, cursor, turns, end + 1);
    } else if Scan(payload, end, cursor, turns - 1).Some? {
      ScanOnce(payload, end, cursor, turns - 1, turns);
      StopsSoonOrNever(payload, end, cursor, turns - 1);
    } else {
      var offsets := Visited(payload, end, cursor, turns);
      FewBelow(offsets, end);
    }
  }

  // ---- the scan against the rebase of the block

  /** The rebase of a block, by its first entry. */
  lemma BlockByEntry(payload: seq<Byte>, cursor: nat, end: nat, delta: nat)
    requires cursor < end <= |payload|
    ensures RebaseBlock(payload[cursor..end], delta) ==
      match ReadProperty(payload, cursor)
      case None => None
      case Some(p) =>
        if p.after > end then None
        else if p.id % 2 == 1 then
          if p.value > end - p.after then None
          else Prefixed(payload[cursor..p.after + p.value], RebaseBlock(payload[p.after + p.value..end], delta))
        else if p.id == 10 then Some(payload[cursor..p.offset] + Vi64.Encode(Later(p.value, delta)) + payload[p.after..end])
        else Prefixed(payload[cursor..p.after], RebaseBlock(payload[p.after..end], delta))
  {
    hide Vi64.Decode, Vi64.Encode, RebaseBlock, Prefixed, Later;
    EntryAt(payload, cursor, end, delta);
  }

  lemma RewrittenFrom(payload: seq<Byte>, begin: nat, mid: nat, end: nat, delta: nat, t: Turn)
    requires begin <= mid <= end <= |payload| && (t.Field? ==> mid <= t.offset)
    ensures Rewritten(payload, begin, end, delta, t) == Prefixed(payload[begin..mid], Rewritten(payload, mid, end, delta, t))
  {
    hide Vi64.Encode;
    if t.Field? && t.offset <= t.after <= end {
      assert payload[begin..t.offset] == payload[begin..mid] + payload[mid..t.offset];
      var encoded := Vi64.Encode(Later(t.value, delta));
      assert payload[begin..mid] + (payload[mid..t.offset] + encoded + payload[t.after..end]) ==
        payload[begin..t.offset] + encoded + payload[t.after..end];
    }
  }

  /** Without a leap the scan stops at most one turn for each byte later, with the rebase of the block. */
  lemma {:induction false} ScanIsRebase(payload: seq<Byte>, cursor: nat, end: nat, delta: nat)
    requires cursor <= end <= |payload| < TwoTo64 && FirstLeap(payload, end, cursor).None?
    ensures var t := Scan(payload, end, cursor, end - cursor + 1);
      t.Some? && (t.value.Field? ==> cursor <= t.value.offset) &&
      Rewritten(payload, cursor, end, delta, t.value) == RebaseBlock(payload[cursor..end], delta)
    decreases end - cursor, 1
  {
    hide RebaseBlock, Rewritten, ReadProperty, Vi64.Encode, Later, Prefixed;
    if cursor == end {
      assert payload[cursor..end] == [];
      NothingLeft(delta);
      NotRewritten(payload, cursor, end, delta);
    } else {
      BlockByEntry(payload, cursor, end, delta);
      match TurnAt(payload, end, cursor) {
        case Failure => NotRewritten(payload, cursor, end, delta);
        case Field(offset, value, after) =>
          FieldRewritten(payload, cursor, end, delta, TurnAt(payload, end, cursor));
        case Next(c) => NextIsRebase(payload, cursor, c, end, delta);
      }
    }
  }

  lemma NotRewritten(payload: seq<Byte>, begin: nat, end: nat, delta: nat)
    requires begin <= end <= |payload|
    ensures Rewritten(payload, begin, end, delta, Failure) == None
  {
  }

  lemma FieldRewritten(payload: seq<Byte>, begin: nat, end: nat, delta: nat, t: Turn)
    requires begin <= end <= |payload| && t.Field? && begin <= t.offset <= t.after <= end
    ensures Rewritten(payload, begin, end, delta, t) ==
      Some(payload[begin..t.offset] + Vi64.Encode(Later(t.value, delta)) + payload[t.after..end])
  {
  }

  lemma {:induction false} NextIsRebase(payload: seq<Byte>, cursor: nat, c: nat, end: nat, delta: nat)
    requires cursor < end <= |payload| < TwoTo64 && FirstLeap(payload, end, cursor).None?
    requires TurnAt(payload, end, cursor) == Next(c)
    ensures var t := Scan(payload, end, cursor, end - cursor + 1);
      t.Some? && (t.value.Field? ==> cursor <= t.value.offset) &&
      Rewritten(payload, cursor, end, delta, t.value) == RebaseBlock(payload[cursor..end], delta)
    decreases end - cursor, 0
  {
    hide RebaseBlock, Rewritten, ReadProperty, Vi64.Encode, Later, Prefixed;
    BlockByEntry(payload, cursor, end, delta);
    if c <= end {
      ScanIsRebase(payload, c, end, delta);
      ScanOnce(payload, end, c, end - c + 1, end - cursor);
      RewrittenFrom(payload, cursor, c, end, delta, Scan(payload, end, c, end - c + 1).value);
    } else {
      NotRewritten(payload, cursor, end, delta);
    }
  }

  lemma NothingLeft(delta: nat)
    ensures RebaseBlock([], delta) == None
  {
  }

  lemma Advance(payload: seq<Byte>, begin: nat, start: nat, cursor: nat, end: nat, delta: nat)
    requires begin <= start <= cursor <= end <= |payload|
    requires RebaseBlock(payload[begin..end], delta) ==
      Prefixed(payload[begin..start], Prefixed(payload[start..cursor], RebaseBlock(payload[cursor..end], delta)))
    ensures RebaseBlock(payload[begin..end], delta) ==
      Prefixed(payload[begin..cursor], RebaseBlock(payload[cursor..end], delta))
  {
    hide RebaseBlock;
    PrefixedTwice(payload[begin..start], payload[start..cursor], RebaseBlock(payload[cursor..end], delta));
    assert payload[begin..start] + payload[start..cursor] == payload[begin..cursor];
  }

  /** A leap means that the block is malformed, and the scan goes on from where it lands. */
  lemma {:induction false} LeapTurns(payload: seq<Byte>, cursor: nat, end: nat, delta: nat) returns (taken: nat)
    requires cursor <= end <= |payload| < TwoTo64 && FirstLeap(payload, end, cursor).Some?
    ensures RebaseBlock(payload[cursor..end], delta) == None
    ensures forall turns: nat ::
      Scan(payload, end, cursor, taken + turns) == Scan(payload, end, FirstLeap(payload, end, cursor).value, turns)
    decreases end - cursor
  {
    hide RebaseBlock, ReadProperty, Vi64.Encode, Later;
    BlockByEntry(payload, cursor, end, delta);
    var next := TurnAt(payload, end, cursor).cursor;
    if Leaps(payload, end, cursor) {
      taken := 1;
    } else {
      var rest := LeapTurns(payload, next, end, delta);
      taken := rest + 1;
    }
  }

  lemma {:induction false} ScanEnds(payload: seq<Byte>, end: nat, cursor: nat, turns: nat)
    requires end <= |payload| && Scan(payload, end, cursor, turns).Some?
    ensures var t := Scan(payload, end, cursor, turns).value;
      !t.Next? && (t.Field? ==> t.offset < t.after <= end)
    decreases turns
  {
    match TurnAt(payload, end, cursor) {
      case Next(c) => ScanEnds(payload, end, c, turns - 1);
      case _ =>
    }
  }

  /**
   * When the source's answer on a block is the rebase of the block: exactly when the
   * cursor never leaps, or the scan from where it first lands fails.
   */
  lemma BlockAgreesExactly(payload: seq<Byte>, begin: nat, end: nat, delta: nat)
    requires begin <= end <= |payload| < TwoTo64
    ensures BlockSettles(payload, begin, end) &&
      Rewritten(payload, begin, end, delta, Scan(payload, end, begin, end + 1).value) ==
        RebaseBlock(payload[begin..end], delta)
      <==> (match FirstLeap(payload, end, begin)
            case None => true
            case Some(c) => Scan(payload, end, c, end + 1) == Some(Failure))
  {
    hide TurnAt, RebaseBlock, Vi64.Encode, Later, FirstLeap;
    match FirstLeap(payload, end, begin) {
      case None =>
        ScanIsRebase(payload, begin, end, delta);
        ScanOnce(payload, end, begin, end - begin + 1, end + 1);
      case Some(c) =>
        var taken := LeapTurns(payload, begin, end, delta);
        ScanFrom(payload, end, begin, c, taken);
        var t := Scan(payload, end, begin, end + 1);
        if t.Some? {
          ScanEnds(payload, end, begin, end + 1);
        }
    }
  }

  /** Two offsets of one scan stop alike. */
  lemma ScanFrom(payload: seq<Byte>, end: nat, cursor: nat, c: nat, taken: nat)
    requires end <= |payload|
    requires forall turns: nat :: Scan(payload, end, cursor, taken + turns) == Scan(payload, end, c, turns)
    ensures Scan(payload, end, cursor, end + 1) == Scan(payload, end, c, end + 1)
  {
    hide Scan;
    var n := end + 1;
    assert Scan(payload, end, cursor, taken + n) == Scan(payload, end, c, n);
    if Scan(payload, end, c, n).Some? {
      StopsSoonOrNever(payload, end, cursor, taken + n);
    } else if Scan(payload, end, cursor, n).Some? {
      ScanOnce(payload, end, cursor, n, taken + n);
    }
  }

  /** A turn that leads back to its own offset repeats for ever. */
  lemma {:induction false} Stuck(payload: seq<Byte>, end: nat, cursor: nat, turns: nat)
    requires end <= |payload| && TurnAt(payload, end, cursor) == Next(cursor)
    ensures Scan(payload, end, cursor, turns).None?
  {
    hide TurnAt;
    if turns > 0 {
      Stuck(payload, end, cursor, turns - 1);
    }
  }

  /** A block of one property id and, past it, a length that takes the cursor back to the id. */
  lemma EndlessScan(turns: nat)
    ensures var payload := [2, 1, 1, 0xFF, 0xFF, 0xFF, 0xFF, 0xFF, 0xFF, 0xFF, 0xFF, 0xF6];
      PropertiesAt(payload, 0) == Some((1, 2, 3)) && FirstLeap(payload, 3, 2) == Some(2) && Scan(payload, 3, 2, turns).None?
  {
    hide Vi64.Decode;
    var payload: seq<Byte> := [2, 1, 1, 0xFF, 0xFF, 0xFF, 0xFF, 0xFF, 0xFF, 0xFF, 0xFF, 0xF6];
    assert payload[0..] == payload;
    OneByte(payload);
    OneByte(payload[1..]);
    OneByte(payload[2..]);
    NineBytes(payload[3..]);
    assert ReadProperty(payload, 2) == Some(Property(1, 3, TwoTo64 - 10, 12));
    assert TurnAt(payload, 3, 2) == Next(2);
    Stuck(payload, 3, 2, turns);
  }

  lemma OneByte(s: seq<Byte>)
    requires s != [] && s[0] < 0x80
    ensures Vi64.Decode(s) == Some((s[0], 1))
  {
    Vi64.Pow2Values();
    assert s[1..1] == [];
  }

  lemma AccumulateByte(high: nat, s: seq<Byte>, b: Byte)
    ensures Accumulate(high, s + [b]) == Accumulate(high, s) * 256 + b
  {
    assert (s + [b])[..|s|] == s;
  }

  lemma NineBytes(s: seq<Byte>)
    requires s == [0xFF, 0xFF, 0xFF, 0xFF, 0xFF, 0xFF, 0xFF, 0xFF, 0xF6]
    ensures Vi64.Decode(s) == Some((TwoTo64 - 10, 9))
  {
    var t: seq<Byte> := [0xFF, 0xFF, 0xFF, 0xFF, 0xFF, 0xFF, 0xFF, 0xF6];
    assert s[1..9] == t;
    AllOnes(t[..7]);
    Vi64.Pow256Table();
    AccumulateByte(0, t[..7], 0xF6);
    assert t == t[..7] + [0xF6];
  }

  lemma {:induction false} AllOnes(s: seq<Byte>)
    requires forall i: nat | i < |s| :: s[i] == 0xFF
    ensures Accumulate(0, s) == Pow256(|s|) - 1
  {
    if s != [] {
      AllOnes(s[..|s| - 1]);
    }
  }

  // ---- the object

  /** The property block of a full header: where its length stands, its first byte and its end. */
  function PropertiesAt(payload: seq<Byte>, cursor: nat): (r: Option<(nat, nat, nat)>)
    requires cursor <= |payload|
    ensures r.Some? ==> cursor <= r.value.0 <= r.value.1 <= r.value.2 <= |payload|
    decreases |payload| - cursor
  {
    match Vi64.Decode(payload[cursor..])
    case None => None
    case Some((kind, n)) =>
      if kind != 1 && kind != 2 then None
      else
        match Vi64.Decode(payload[cursor + n..])
        case None => None
        case Some((length, m)) =>
          var begin := cursor + n + m;
          if length > |payload| - begin then None
          else if kind == 1 then PropertiesAt(payload, begin + length)
          else Some((cursor + n, begin, begin + length))
  }

  /** The source answers on this payload: it has no property block, or the scan of the block settles. */
  predicate Settles(payload: seq<Byte>) {
    match PropertiesAt(payload, 0)
    case None => true
    case Some((_, begin, end)) => BlockSettles(payload, begin, end)
  }

  /** The object with its property block replaced. */
  function WithBlock(payload: seq<Byte>, at: nat, end: nat, block: Option<seq<Byte>>): Option<seq<Byte>>
    requires at <= end <= |payload|
  {
    match block
    case None => None
    case Some(b) => Some(payload[..at] + Vi64.Encode(|b| % TwoTo64) + b + payload[end..])
  }

  /** What the source answers. */
  ghost function Answer(payload: seq<Byte>, delta: nat): Option<seq<Byte>>
    requires Settles(payload)
  {
    match PropertiesAt(payload, 0)
    case None => RebaseObject(payload, delta)
    case Some((at, begin, end)) =>
      WithBlock(payload, at, end, Rewritten(payload, begin, end, delta, Scan(payload, end, begin, end + 1).value))
  }

  /** What the element scan does at a cursor. */
  ghost function ElementResult(payload: seq<Byte>, cursor: nat, delta: nat): Option<seq<Byte>>
    requires cursor <= |payload|
  {
    match Vi64.Decode(payload[cursor..])
    case None => None
    case Some((kind, n)) =>
      var begin := cursor + n;
      if kind == 3 then Some(payload[cursor..])
      else if kind == 4 then Prefixed(payload[cursor..begin], CmafRebase.Rebase(payload[begin..], delta))
      else if kind == 1 || kind == 2 then
        match Vi64.Decode(payload[begin..])
        case None => None
        case Some((length, m)) =>
          if length > |payload| - begin - m then None
          else if kind == 1 then
            Prefixed(payload[cursor..begin + m + length], RebaseObject(payload[begin + m + length..], delta))
          else
            match RebaseBlock(payload[begin + m..begin + m + length], delta)
            case None => None
            case Some(block) =>
              Some(payload[cursor..begin] + Vi64.Encode(|block| % TwoTo64) + block + payload[begin + m + length..])
      else None
  }

  lemma ElementAt(payload: seq<Byte>, cursor: nat, delta: nat)
    requires cursor <= |payload|
    ensures RebaseObject(payload[cursor..], delta) == ElementResult(payload, cursor, delta)
  {
    hide Vi64.Decode, Vi64.Encode, CmafRebase.Rebase, RebaseBlock, Prefixed;
    var s := payload[cursor..];
    if Vi64.Decode(s).Some? {
      var (kind, n) := Vi64.Decode(s).value;
      After(payload, cursor, n);
      if Vi64.Decode(s[n..]).Some? {
        var (length, m) := Vi64.Decode(s[n..]).value;
        After(payload, cursor + n, m);
        After(payload, cursor, n + m);
        if length <= |payload| - cursor - n - m {
          After(payload, cursor + n + m, length);
          After(payload, cursor, n + m + length);
        }
      }
    }
  }

  lemma After(payload: seq<Byte>, cursor: nat, k: nat)
    requires cursor + k <= |payload|
    ensures payload[cursor..][k..] == payload[cursor + k..] && payload[cursor..][..k] == payload[cursor..cursor + k]
  {
  }

  lemma Rejoin(payload: seq<Byte>, cursor: nat, next: nat, a: seq<Byte>, b: seq<Byte>, c: seq<Byte>)
    requires cursor <= next <= |payload|
    ensures payload[..cursor] + (payload[cursor..next] + a) == payload[..next] + a
    ensures payload[..cursor] + (payload[cursor..next] + a + b + c) == payload[..next] + a + b + c
  {
    assert payload[..next] == payload[..cursor] + payload[cursor..next];
  }

  lemma PrefixedWithBlock(payload: seq<Byte>, cursor: nat, at: nat, begin: nat, end: nat, block: seq<Byte>)
    requires cursor <= at <= begin <= end <= |payload|
    ensures var length := Vi64.Encode(|block| % TwoTo64);
      Prefixed(payload[..cursor], Some(payload[cursor..at] + length + block + payload[end..])) ==
      WithBlock(payload, at, end, Some(block))
  {
    hide Vi64.Encode;
    assert payload[..at] == payload[..cursor] + payload[cursor..at];
    var length := Vi64.Encode(|block| % TwoTo64);
    assert payload[..cursor] + (payload[cursor..at] + length + block + payload[end..]) ==
      payload[..at] + length + block + payload[end..];
  }

  /** An object with a property block is rebased through it. */
  lemma {:induction false} ObjectByBlock(payload: seq<Byte>, cursor: nat, delta: nat)
    requires cursor <= |payload| && PropertiesAt(payload, cursor).Some?
    ensures var (at, begin, end) := PropertiesAt(payload, cursor).value;
      Prefixed(payload[..cursor], RebaseObject(payload[cursor..], delta)) ==
        WithBlock(payload, at, end, RebaseBlock(payload[begin..end], delta))
    decreases |payload| - cursor
  {
    hide Vi64.Decode, Vi64.Encode, RebaseObject, RebaseBlock, CmafRebase.Rebase, WithBlock;
    ElementAt(payload, cursor, delta);
    var (kind, n) := Vi64.Decode(payload[cursor..]).value;
    var (length, m) := Vi64.Decode(payload[cursor + n..]).value;
    var begin := cursor + n + m;
    if kind == 1 {
      ObjectByBlock(payload, begin + length, delta);
      PrefixedTwice(payload[..cursor], payload[cursor..begin + length], RebaseObject(payload[begin + length..], delta));
      assert payload[..cursor] + payload[cursor..begin + length] == payload[..begin + length];
    } else {
      BlockReplaced(payload, cursor, cursor + n, begin, begin + length, RebaseBlock(payload[begin..begin + length], delta));
    }
  }

  lemma BlockReplaced(payload: seq<Byte>, cursor: nat, at: nat, begin: nat, end: nat, block: Option<seq<Byte>>)
    requires cursor <= at <= begin <= end <= |payload|
    ensures Prefixed(payload[..cursor], match block
              case None => None
              case Some(b) => Some(payload[cursor..at] + Vi64.Encode(|b| % TwoTo64) + b + payload[end..])) ==
      WithBlock(payload, at, end, block)
  {
    hide Vi64.Encode;
    if block.Some? {
      PrefixedWithBlock(payload, cursor, at, begin, end, block.value);
    }
  }

  lemma WithBlockInjective(payload: seq<Byte>, at: nat, end: nat, a: Option<seq<Byte>>, b: Option<seq<Byte>>)
    requires at <= end <= |payload| && WithBlock(payload, at, end, a) == WithBlock(payload, at, end, b)
    ensures a.Some? <==> b.Some?
  {
  }

  /**
   * When the source's answer is the rebase of the object: exactly when the object has no
   * property block, or the scan of the block never leaps, or fails from where it first lands.
   */
  lemma AnswersExactly(payload: seq<Byte>, delta: nat)
    requires |payload| < TwoTo64
    ensures Settles(payload) && Answer(payload, delta) == RebaseObject(payload, delta) <==>
      (match PropertiesAt(payload, 0)
       case None => true
       case Some((_, begin, end)) =>
         var leap := FirstLeap(payload, end, begin);
         leap.None? || Scan(payload, end, leap.value, end + 1) == Some(Failure))
  {
    hide RebaseObject, RebaseBlock, Vi64.Decode, Vi64.Encode, Scan, FirstLeap, Rewritten, WithBlock;
    if PropertiesAt(payload, 0).Some? {
      var (at, begin, end) := PropertiesAt(payload, 0).value;
      assert payload[0..] == payload && payload[..0] == [];
      PrefixedNothing(RebaseObject(payload, delta));
      ObjectByBlock(payload, 0, delta);
      BlockAgreesExactly(payload, begin, end, delta);
      if BlockSettles(payload, begin, end) {
        AnswerByBlock(payload, at, begin, end, delta);
      }
    }
  }

  /** The answers agree only when the blocks do. */
  lemma AnswerByBlock(payload: seq<Byte>, at: nat, begin: nat, end: nat, delta: nat)
    requires |payload| < TwoTo64 && at <= begin <= end <= |payload| && BlockSettles(payload, begin, end)
    ensures var t := Scan(payload, end, begin, end + 1).value;
      WithBlock(payload, at, end, Rewritten(payload, begin, end, delta, t)) ==
        WithBlock(payload, at, end, RebaseBlock(payload[begin..end], delta)) <==>
      Rewritten(payload, begin, end, delta, t) == RebaseBlock(payload[begin..end], delta)
  {
    hide RebaseBlock, Vi64.Encode, Scan, TurnAt, Rewritten, WithBlock;
    if FirstLeap(payload, end, begin).None? {
      BlockAgreesExactly(payload, begin, end, delta);
    } else {
      var taken := LeapTurns(payload, begin, end, delta);
      var a := Rewritten(payload, begin, end, delta, Scan(payload, end, begin, end + 1).value);
      if WithBlock(payload, at, end, a) == WithBlock(payload, at, end, None) {
        WithBlockInjective(payload, at, end, a, None);
      }
    }
  }

  /** An object that has a rebase gets it: the encoder's objects do, and their blocks never leap. */
  lemma RebasedIsAnswered(payload: seq<Byte>, delta: nat)
    requires |payload| < TwoTo64 && RebaseObject(payload, delta).Some?
    ensures Settles(payload) && Answer(payload, delta) == RebaseObject(payload, delta)
  {
    hide RebaseObject, RebaseBlock, Vi64.Decode, Vi64.Encode, Scan, Rewritten, TurnAt;
    AnswersExactly(payload, delta);
    if PropertiesAt(payload, 0).Some? {
      var (at, begin, end) := PropertiesAt(payload, 0).value;
      assert payload[0..] == payload && payload[..0] == [];
      PrefixedNothing(RebaseObject(payload, delta));
      ObjectByBlock(payload, 0, delta);
      if FirstLeap(payload, end, begin).Some? {
        var taken := LeapTurns(payload, begin, end, delta);
      }
    }
  }

  // ---- the source's form

  /** The property scan: the rewritten block, or None. */
  method RebaseProperties(payload: seq<Byte>, begin: nat, end: nat, delta: nat) returns (r: Option<seq<Byte>>)
    requires begin <= end <= |payload| < TwoTo64 && BlockSettles(payload, begin, end)
    ensures r == Rewritten(payload, begin, end, delta, Scan(payload, end, begin, end + 1).value)
  {
    hide Vi64.Decode, Vi64.Encode;
    var cursor: nat := begin;
    ghost var turns: nat := end + 1;
    while cursor < end
      invariant turns > 0
      invariant Scan(payload, end, cursor, turns).Some?
      invariant Scan(payload, end, cursor, turns) == Scan(payload, end, begin, end + 1)
      decreases turns
    {
      turns := turns - 1;
      var id, valueOffset := Vi64.Read(payload, cursor);
      if id.None? {
        return None;
      }
      if id.value % 2 == 1 {
        var length, after := Vi64.Read(payload, valueOffset);
        if length.None? || (end - after) % TwoTo64 < length.value {
          return None;
        }
        cursor := (after + length.value) % TwoTo64;
        continue;
      }
      var value, after := Vi64.Read(payload, valueOffset);
      if value.None? || after > end {
        return None;
      }
      if id.value != 10 {
        cursor := after;
        continue;
      }
      var encoded := Vi64.LocmafVarint((value.value + delta) % TwoTo64);
      return Some(payload[begin..valueOffset] + encoded + payload[after..end]);
    }
    return None;
  }

  /** `rebase_locmaf_timestamps`: true with the rebased object, or false with the object as it was. */
  method RebaseLocmafTimestamps(payload: seq<Byte>, delta: nat) returns (ok: bool, result: seq<Byte>)
    requires |payload| < TwoTo64 && Settles(payload)
    ensures ok <==> Answer(payload, delta).Some?
    ensures result == if ok then Answer(payload, delta).value else payload
    ensures RebaseObject(payload, delta).Some? ==> ok && result == RebaseObject(payload, delta).value
  {
    hide Vi64.Decode, Vi64.Encode, CmafRebase.Rebase, RebaseBlock, RebaseObject, Rewritten, Scan, TurnAt;
    if RebaseObject(payload, delta).Some? {
      RebasedIsAnswered(payload, delta);
    }
    var cursor := 0;
    assert payload[0..] == payload && payload[..0] == [];
    PrefixedNothing(RebaseObject(payload, delta));
    while true
      invariant cursor <= |payload| && PropertiesAt(payload, 0) == PropertiesAt(payload, cursor)
      invariant RebaseObject(payload, delta) == Prefixed(payload[..cursor], RebaseObject(payload[cursor..], delta))
      decreases |payload| - cursor
    {
      ElementAt(payload, cursor, delta);
      var start := cursor;
      var kind, next := Vi64.Read(payload, cursor);
      if kind.None? {
        return false, payload;
      }
      if kind.value == 3 {
        assert payload[..cursor] + payload[cursor..] == payload;
        return true, payload;
      }
      if kind.value == 4 {
        var fine, chunk := CmafRebaseInPlace.RebaseCmafTimestamps(payload[next..], delta);
        if !fine {
          return false, payload;
        }
        Rejoin(payload, cursor, next, chunk, [], []);
        return true, payload[..next] + chunk;
      }
      if kind.value != 1 && kind.value != 2 {
        return false, payload;
      }
      var length, begin := Vi64.Read(payload, next);
      if length.None? || |payload| - begin < length.value {
        return false, payload;
      }
      if kind.value == 2 {
        var end := begin + length.value;
        assert PropertiesAt(payload, 0) == Some((next, begin, end));
        var block := RebaseProperties(payload, begin, end, delta);
        if block.None? {
          return false, payload;
        }
        var encodedLength := Vi64.LocmafVarint(|block.value| % TwoTo64);
        return true, payload[..next] + encodedLength + block.value + payload[end..];
      }
      cursor := begin + length.value;
      PrefixedTwice(payload[..start], payload[start..cursor], RebaseObject(payload[cursor..], delta));
      Rejoin(payload, start, cursor, [], [], []);
      assert payload[..start] + payload[start..cursor] == payload[..cursor];
    }
  }
}
