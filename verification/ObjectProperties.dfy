/**
 * The object property block: properties in the order of their ids, each id as the
 * difference to the one before, an integer under an even id and counted bytes under an
 * odd one.
 */
module ObjectProperties {
  import opened Bytes
  import Vi64

  const MaxBlock := 65536

  type Word64 = n: nat | n < TwoTo64

  datatype Value = Integer(n: Word64) | Data(bytes: seq<Byte>)

  datatype Property = Property(id: Word64, value: Value) {
    /** The parity of the id says what it holds. */
    predicate WellTyped() {
      if id % 2 == 0 then value.Integer? else value.Data? && |value.bytes| <= 65535
    }
  }

  predicate AllTyped(ps: seq<Property>) {
    forall p | p in ps :: p.WellTyped()
  }

  predicate Rising(ps: seq<Property>) {
    forall i, j | 0 <= i < j < |ps| :: ps[i].id < ps[j].id
  }

  predicate Ascending(ps: seq<Property>) {
    forall i, j | 0 <= i < j < |ps| :: ps[i].id <= ps[j].id
  }

  // ---- the order

  function Insert(p: Property, sorted: seq<Property>): seq<Property> {
    if sorted == [] || p.id <= sorted[0].id then [p] + sorted else [sorted[0]] + Insert(p, sorted[1..])
  }

  function ById(ps: seq<Property>): seq<Property> {
    if ps == [] then [] else Insert(ps[0], ById(ps[1..]))
  }

  lemma {:induction false} InsertAdds(p: Property, sorted: seq<Property>)
    ensures multiset(Insert(p, sorted)) == multiset([p]) + multiset(sorted)
  {
    if sorted != [] && p.id > sorted[0].id {
      InsertAdds(p, sorted[1..]);
      assert sorted == [sorted[0]] + sorted[1..];
    }
  }

  lemma {:induction false} InsertSorts(p: Property, sorted: seq<Property>)
    requires Ascending(sorted)
    ensures Ascending(Insert(p, sorted))
  {
    if sorted != [] && p.id > sorted[0].id {
      InsertSorts(p, sorted[1..]);
      InsertAdds(p, sorted[1..]);
      forall q | q in Insert(p, sorted[1..])
        ensures sorted[0].id <= q.id
      {
        assert q in multiset([p]) + multiset(sorted[1..]);
      }
    }
  }

  lemma {:induction false} ByIdSorts(ps: seq<Property>)
    ensures Ascending(ById(ps)) && multiset(ById(ps)) == multiset(ps)
  {
    if ps != [] {
      ByIdSorts(ps[1..]);
      InsertAdds(ps[0], ById(ps[1..]));
      InsertSorts(ps[0], ById(ps[1..]));
      assert ps == [ps[0]] + ps[1..];
    }
  }

  /** The same properties under rising ids. */
  ghost predicate Arranges(ps: seq<Property>, sorted: seq<Property>) {
    multiset(sorted) == multiset(ps) && Rising(sorted)
  }

  lemma {:induction false} RisingIsUnique(a: seq<Property>, b: seq<Property>)
    requires multiset(a) == multiset(b) && Ascending(a) && Rising(b)
    ensures a == b
  {
    if b == [] {
      assert |multiset(a)| == 0;
    } else {
      LeastFirst(a, b);
      WithoutFirst(a);
      WithoutFirst(b);
      RisingIsUnique(a[1..], b[1..]);
      assert a == [a[0]] + a[1..] && b == [b[0]] + b[1..];
    }
  }

  lemma WithoutFirst(s: seq<Property>)
    requires s != []
    ensures multiset(s[1..]) == multiset(s) - multiset{s[0]}
  {
    assert s == [s[0]] + s[1..];
  }

  lemma LeastFirst(a: seq<Property>, b: seq<Property>)
    requires multiset(a) == multiset(b) && Ascending(a) && Rising(b) && b != []
    ensures a != [] && a[0] == b[0]
  {
    assert b[0] in multiset(a);
    assert a[0] in multiset(b);
    var i :| 0 <= i < |a| && a[i] == b[0];
    var j :| 0 <= j < |b| && b[j] == a[0];
  }

  // ---- the block

  function ValueText(p: Property): (s: seq<Byte>)
    requires p.WellTyped()
    ensures |s| >= 1
  {
    match p.value
    case Integer(n) => Vi64.Encode(n)
    case Data(bytes) => Vi64.Encode(|bytes|) + bytes
  }

  function Entry(previous: nat, p: Property): (s: seq<Byte>)
    requires p.WellTyped() && previous <= p.id
    ensures |s| >= 2
  {
    Vi64.Encode(p.id - previous) + ValueText(p)
  }

  function LastId(ps: seq<Property>): nat {
    if ps == [] then 0 else ps[|ps| - 1].id
  }

  function Block(ps: seq<Property>): (s: seq<Byte>)
    requires Rising(ps) && AllTyped(ps)
    ensures |s| >= 2 * |ps|
  {
    if ps == [] then []
    else
      var before, p := ps[..|ps| - 1], ps[|ps| - 1];
      Block(before) + Entry(LastId(before), p)
  }

  /** `serialize_object_properties`, None for an exception. */
  function Serialize(ps: seq<Property>): Option<seq<Byte>> {
    var sorted := ById(ps);
    if |ps| > 32768 || !Rising(sorted) || !AllTyped(sorted) || |Block(sorted)| > MaxBlock then None
    else Some(Block(sorted))
  }

  // ---- reading it back

  /** One property from the front, and what is left. */
  function ReadEntry(previous: nat, s: seq<Byte>): (r: Option<(Property, seq<Byte>)>)
    ensures r.Some? ==> |r.value.1| < |s|
  {
    var d := Vi64.Decode(s);
    if d.None? || previous + d.value.0 > MaxU64 then None
    else
      var id := previous + d.value.0;
      var v := Vi64.Decode(s[d.value.1..]);
      if v.None? then None
      else
        var rest := s[d.value.1..][v.value.1..];
        if id % 2 == 0 then
          Vi64.DecodeFits(s[d.value.1..]);
          Some((Property(id, Integer(v.value.0)), rest))
        else if v.value.0 > |rest| then None
        else Some((Property(id, Data(rest[..v.value.0])), rest[v.value.0..]))
  }

  function ReadBlock(previous: nat, s: seq<Byte>): Option<seq<Property>>
    decreases |s|
  {
    if s == [] then Some([])
    else
      match ReadEntry(previous, s)
      case None => None
      case Some((p, rest)) =>
        match ReadBlock(p.id, rest)
        case None => None
        case Some(more) => Some([p] + more)
  }

  lemma EntryReads(previous: nat, p: Property, rest: seq<Byte>)
    requires p.WellTyped() && previous <= p.id
    ensures ReadEntry(previous, Entry(previous, p) + rest) == Some((p, rest))
  {
    hide Vi64.Encode, Vi64.Decode, Vi64.Length;
    var first, value := Vi64.Encode(p.id - previous), ValueText(p);
    var s := Entry(previous, p) + rest;
    assert s == first + (value + rest);
    Vi64.RoundTrip(p.id - previous, value + rest);
    assert s[|first|..] == value + rest;
    match p.value {
      case Integer(n) =>
        Vi64.RoundTrip(n, rest);
        assert (value + rest)[|value|..] == rest;
      case Data(bytes) =>
        var size := Vi64.Encode(|bytes|);
        Vi64.RoundTrip(|bytes|, bytes + rest);
        assert value + rest == size + (bytes + rest);
        assert (value + rest)[|size|..] == bytes + rest;
        assert (bytes + rest)[..|bytes|] == bytes && (bytes + rest)[|bytes|..] == rest;
    }
  }

  /** What the bytes after a written block read as comes behind its properties. */
  lemma {:induction false} BlockReads(ps: seq<Property>, rest: seq<Byte>, more: seq<Property>)
    requires Rising(ps) && AllTyped(ps) && ReadBlock(LastId(ps), rest) == Some(more)
    ensures ReadBlock(0, Block(ps) + rest) == Some(ps + more)
    decreases |ps|
  {
    hide Entry, ReadEntry, ReadBlock, Block, Rising, AllTyped;
    if ps == [] {
      assert Block(ps) == [] by { BlockNothing(); }
      assert [] + rest == rest && ps + more == more;
    } else {
      var before, p := ps[..|ps| - 1], ps[|ps| - 1];
      var entry := BlockLast(ps);
      EntryReads(LastId(before), p, rest);
      ReadFirst(LastId(before), p, entry + rest, rest, more);
      BlockReads(before, entry + rest, [p] + more);
      assert Block(ps) + rest == Block(before) + (entry + rest);
      assert ps + more == before + ([p] + more);
    }
  }

  lemma BlockLast(ps: seq<Property>) returns (entry: seq<Byte>)
    requires ps != [] && Rising(ps) && AllTyped(ps)
    ensures var before, p := ps[..|ps| - 1], ps[|ps| - 1];
      Rising(before) && AllTyped(before) && p.WellTyped() && LastId(before) <= p.id && LastId(ps) == p.id &&
      entry == Entry(LastId(before), p) && Block(ps) == Block(before) + entry
  {
    entry := Entry(LastId(ps[..|ps| - 1]), ps[|ps| - 1]);
  }

  lemma ReadFirst(previous: nat, p: Property, s: seq<Byte>, rest: seq<Byte>, more: seq<Property>)
    requires s != [] && ReadEntry(previous, s) == Some((p, rest)) && ReadBlock(p.id, rest) == Some(more)
    ensures ReadBlock(previous, s) == Some([p] + more)
  {
    hide ReadEntry;
  }

  /**
   * A block is written exactly when the ids differ, each property has the form its id
   * asks for, and the block has at most 64 KiB; it is the block of the properties under
   * rising ids, and reading it gives those.
   */
  lemma SerializesExactly(ps: seq<Property>, s: seq<Byte>)
    ensures Serialize(ps) == Some(s) <==>
      AllTyped(ps) && |s| <= MaxBlock && exists sorted :: Arranges(ps, sorted) && AllTyped(sorted) && s == Block(sorted)
    ensures Serialize(ps) == Some(s) ==> ReadBlock(0, s).Some? && Arranges(ps, ReadBlock(0, s).value)
  {
    hide Block, ById, ReadEntry;
    var mine := ById(ps);
    ByIdSorts(ps);
    SameMembers(ps, mine);
    if AllTyped(ps) && exists sorted :: Arranges(ps, sorted) && AllTyped(sorted) && s == Block(sorted) {
      var sorted :| Arranges(ps, sorted) && AllTyped(sorted) && s == Block(sorted);
      RisingIsUnique(mine, sorted);
      assert |multiset(mine)| == |ps|;
    }
    if Serialize(ps) == Some(s) {
      assert Arranges(ps, mine);
      BlockReads(mine, [], []);
      assert s + [] == s && mine + [] == mine;
    }
  }

  lemma SameMembers(a: seq<Property>, b: seq<Property>)
    requires multiset(a) == multiset(b)
    ensures AllTyped(a) <==> AllTyped(b)
  {
    forall p
      ensures p in a <==> p in b
    {
      assert p in a <==> p in multiset(a);
    }
  }

  // ---- the loop

  lemma BlockNext(ps: seq<Property>, i: nat)
    requires i < |ps| && Rising(ps[..i]) && AllTyped(ps[..i])
    ensures Rising(ps[..i + 1]) && AllTyped(ps[..i + 1]) ==>
      Block(ps[..i + 1]) == Block(ps[..i]) + Entry(LastId(ps[..i]), ps[i])
  {
    assert ps[..i + 1][..i] == ps[..i];
  }

  lemma {:induction false} BlockGrows(ps: seq<Property>, i: nat)
    requires i <= |ps| && Rising(ps) && AllTyped(ps)
    ensures Rising(ps[..i]) && AllTyped(ps[..i]) && |Block(ps[..i])| <= |Block(ps)|
    decreases |ps| - i
  {
    hide Block, Entry;
    if i < |ps| {
      BlockGrows(ps, i + 1);
      BlockNext(ps, i);
    } else {
      assert ps[..i] == ps;
    }
  }

  method SerializeObjectProperties(ps: seq<Property>) returns (r: Option<seq<Byte>>)
    ensures r == Serialize(ps)
  {
    hide Block, Entry, ById;
    if |ps| > 32768 {
      return None;
    }
    var sorted := ById(ps);
    ByIdSorts(ps);
    var bytes: seq<Byte> := [];
    assert Block([]) == [] by { BlockNothing(); }
    for i := 0 to |sorted|
      invariant Rising(sorted[..i]) && AllTyped(sorted[..i]) && bytes == Block(sorted[..i]) && |bytes| <= MaxBlock
    {
      var p := sorted[i];
      var previous := LastId(sorted[..i]);
      if i > 0 && p.id == previous {
        return None;
      }
      if !p.WellTyped() {
        return None;
      }
      assert AllTyped(sorted[..i + 1]);
      BlockNext(sorted, i);
      bytes := bytes + Entry(previous, p);
      if |bytes| > MaxBlock {
        if Rising(sorted) && AllTyped(sorted) {
          BlockGrows(sorted, i + 1);
        }
        return None;
      }
    }
    assert sorted[..|sorted|] == sorted;
    return Some(bytes);
  }

  lemma BlockNothing()
    ensures Block([]) == []
  {
  }
}
