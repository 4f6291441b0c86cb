/**
 * The MP4 box parser as a tree of byte slices: `parse_box_range` with its 64-bit
 * sizes, its size-to-the-end escape and its eager descent into containers.
 */
module Mp4Boxes {
  import opened Bytes

  /** A box: its type, the length of its header, all its bytes, and its children when it is a container. */
  datatype Node = Node(name: string, head: nat, all: seq<Byte>, kids: seq<Node>)

  predicate IsContainer(name: string) {
    name == "moov" || name == "trak" || name == "mdia" || name == "minf" || name == "stbl" || name == "moof" ||
    name == "traf" || name == "mvex" || name == "edts" || name == "dinf" || name == "meta"
  }

  /** Header length and total size of the box at the front; None for an exception. */
  function Extent(s: seq<Byte>): (r: Option<(nat, nat)>)
    requires |s| >= 8
    ensures r.Some? ==> (r.value.0 == 8 || r.value.0 == 16) && r.value.0 <= r.value.1 <= |s|
  {
    var small := FromBE(s[..4]);
    if small == 1 then
      if |s| < 16 then None
      else
        var size := FromBE(s[8..16]);
        if size < 16 || size > |s| then None else Some((16, size))
    else
      var size := if small == 0 then |s| else small;
      if size < 8 || size > |s| then None else Some((8, size))
  }

  /** The boxes of a range; fewer than eight bytes at its end are ignored. */
  function Parse(s: seq<Byte>): Option<seq<Node>>
    decreases |s|
  {
    if |s| < 8 then Some([])
    else
      match Extent(s)
      case None => None
      case Some((head, size)) =>
        var name := Name(s[4..8]);
        var kids := if IsContainer(name) then Parse(s[head..size]) else Some([]);
        if kids.None? then None
        else
          match Parse(s[size..])
          case None => None
          case Some(rest) => Some([Node(name, head, s[..size], kids.value)] + rest)
  }

  function Payload(n: Node): seq<Byte> {
    if n.head <= |n.all| then n.all[n.head..] else []
  }

  function Flat(nodes: seq<Node>): seq<Byte> {
    if nodes == [] then [] else Flat(nodes[..|nodes| - 1]) + nodes[|nodes| - 1].all
  }

  /** Where a child starts in its parent. */
  function KidAt(n: Node, k: nat): nat
    requires k <= |n.kids|
  {
    n.head + |Flat(n.kids[..k])|
  }

  // ---- finding children

  function IndexOf(kids: seq<Node>, name: string): (k: nat)
    ensures k <= |kids| && (k < |kids| ==> kids[k].name == name) && forall i | 0 <= i < k :: kids[i].name != name
    decreases |kids|
  {
    if kids == [] || kids[0].name == name then 0 else 1 + IndexOf(kids[1..], name)
  }

  lemma {:induction false} SameIndex(a: seq<Node>, b: seq<Node>, name: string)
    requires |a| == |b| && forall i | 0 <= i < |a| :: a[i].name == b[i].name
    ensures IndexOf(a, name) == IndexOf(b, name)
    decreases |a|
  {
    if a != [] {
      SameIndex(a[1..], b[1..], name);
    }
  }

  function Find(kids: seq<Node>, name: string): Option<Node> {
    var k := IndexOf(kids, name);
    if k == |kids| then None else Some(kids[k])
  }

  /** The first child of this type. */
  ghost predicate IsFirst(kids: seq<Node>, name: string, k: nat) {
    k < |kids| && kids[k].name == name && forall j | 0 <= j < k :: kids[j].name != name
  }

  lemma FirstIs(kids: seq<Node>, name: string, k: nat)
    ensures IsFirst(kids, name, k) <==> k == IndexOf(kids, name) && k < |kids|
  {
  }

  lemma {:induction false} FlatConcat(a: seq<Node>, b: seq<Node>)
    ensures Flat(a + b) == Flat(a) + Flat(b)
  {
    if b == [] {
      assert a + b == a;
    } else {
      assert (a + b)[..|a + b| - 1] == a + b[..|b| - 1];
      FlatConcat(a, b[..|b| - 1]);
    }
  }

  lemma FlatFirst(nodes: seq<Node>)
    requires nodes != []
    ensures Flat(nodes) == nodes[0].all + Flat(nodes[1..])
  {
    FlatConcat([nodes[0]], nodes[1..]);
    assert [nodes[0]] + nodes[1..] == nodes;
    assert [nodes[0]][..0] == [];
  }

  /** A node as the parser builds it, up to where its size comes from. */
  ghost predicate Built(n: Node) {
    (n.head == 8 || n.head == 16) && n.head <= |n.all| && n.name == Name(n.all[4..8]) &&
    (if IsContainer(n.name) then Parse(n.all[n.head..]) == Some(n.kids) else n.kids == [])
  }

  /** The header states this size, and the box does not rely on where the range ends. */
  ghost predicate Stated(n: Node) {
    n.head <= |n.all| && 8 <= |n.all| &&
    ((n.head == 8 && FromBE(n.all[..4]) == |n.all| && |n.all| != 1) ||
     (n.head == 16 && 16 <= |n.all| && FromBE(n.all[..4]) == 1 && FromBE(n.all[8..16]) == |n.all|))
  }

  ghost predicate ToTheEnd(n: Node) {
    n.head == 8 && 8 <= |n.all| && FromBE(n.all[..4]) == 0
  }

  lemma ParseOne(s: seq<Byte>, n: Node, rest: seq<Byte>, more: seq<Node>)
    requires Built(n) && s == n.all + rest && Parse(rest) == Some(more)
    requires Stated(n) || (ToTheEnd(n) && rest == [])
    ensures Parse(s) == Some([n] + more)
  {
    assert s[..4] == n.all[..4] && s[4..8] == n.all[4..8];
    if n.head == 16 {
      assert s[8..16] == n.all[8..16];
    }
    assert s[..|n.all|] == n.all && s[|n.all|..] == rest && s[n.head..|n.all|] == n.all[n.head..];
  }

  /** A node in its place: only the last box of a range may run to its end. */
  ghost predicate Placed(n: Node, last: bool) {
    Built(n) && (Stated(n) || (ToTheEnd(n) && last))
  }

  ghost predicate Ranged(nodes: seq<Node>, tail: seq<Byte>) {
    |tail| < 8 && forall i | 0 <= i < |nodes| :: Placed(nodes[i], i == |nodes| - 1 && tail == [])
  }

  lemma RangedFirst(n: Node, rest: seq<Node>, tail: seq<Byte>)
    requires Placed(n, rest == [] && tail == []) && Ranged(rest, tail)
    ensures Ranged([n] + rest, tail)
  {
    hide Placed;
  }

  /** The first box of a range that parses, and what is left. */
  lemma ParseFirst(s: seq<Byte>) returns (n: Node, rest: seq<Byte>)
    requires Parse(s).Some? && |s| >= 8
    ensures s == n.all + rest && Parse(rest).Some? && Parse(s).value == [n] + Parse(rest).value && |n.all| >= 8
    ensures Built(n) && (Stated(n) || (ToTheEnd(n) && rest == []))
  {
    hide Built, Stated, ToTheEnd, FromBE;
    var (head, size) := Extent(s).value;
    n, rest := Parse(s).value[0], s[size..];
    FirstIsBuilt(s, n, head, size);
  }

  lemma ParseNothing(s: seq<Byte>)
    requires |s| < 8
    ensures Parse(s) == Some([]) && Flat([]) + s == s
  {
  }

  /** What parsing gives: the boxes tile the range, up to a short tail. */
  lemma {:induction false} ParseTiles(s: seq<Byte>) returns (tail: seq<Byte>)
    requires Parse(s).Some?
    ensures s == Flat(Parse(s).value) + tail && Ranged(Parse(s).value, tail)
    decreases |s|
  {
    hide Parse, Flat, Built, Stated, ToTheEnd, FromBE, Placed;
    if |s| >= 8 {
      var n, rest := ParseFirst(s);
      tail := ParseTiles(rest);
      var more := Parse(rest).value;
      assert ([n] + more)[1..] == more;
      FlatFirst([n] + more);
      LastInPlace(n, more, rest, tail, rest == []);
      RangedFirst(n, more, tail);
      assert n.all + (Flat(more) + tail) == n.all + Flat(more) + tail;
    } else {
      ParseNothing(s);
      tail := s;
    }
  }

  lemma LastInPlace(n: Node, more: seq<Node>, rest: seq<Byte>, tail: seq<Byte>, toEnd: bool)
    requires Built(n) && (Stated(n) || (ToTheEnd(n) && toEnd)) && (toEnd ==> rest == [])
    requires rest == Flat(more) + tail && Ranged(more, tail)
    ensures Placed(n, more == [] && tail == [])
  {
    hide Stated, ToTheEnd;
    if more != [] {
      var k := |more| - 1;
      assert Placed(more[k], tail == []);
      assert |Flat(more)| >= 8;
    }
  }

  lemma FirstIsBuilt(s: seq<Byte>, n: Node, head: nat, size: nat)
    requires |s| >= 8 && Extent(s) == Some((head, size)) && n.head == head && n.all == s[..size] && n.name == Name(s[4..8])
    requires if IsContainer(n.name) then Parse(s[head..size]) == Some(n.kids) else n.kids == []
    ensures Built(n) && (Stated(n) || (ToTheEnd(n) && size == |s|))
  {
    assert s[..size][..4] == s[..4] && s[..size][4..8] == s[4..8] && s[..size][head..] == s[head..size];
    if head == 16 {
      assert s[..size][8..16] == s[8..16];
    }
  }

  // ---- rebuilt ranges

  /** The same box after an edit: still what a parser builds, under a header that still fits. */
  ghost predicate Rebuilt(n: Node, m: Node) {
    Built(m) && m.name == n.name && (Stated(m) || (ToTheEnd(m) && ToTheEnd(n)))
  }

  lemma RebuiltRanged(before: seq<Node>, after: seq<Node>, tail: seq<Byte>)
    requires |before| == |after| && Ranged(before, tail) && forall i | 0 <= i < |before| :: Rebuilt(before[i], after[i])
    ensures Ranged(after, tail)
  {
    hide Built, FromBE;
    forall i | 0 <= i < |after|
      ensures Placed(after[i], i == |after| - 1 && tail == [])
    {
      assert Placed(before[i], i == |after| - 1 && tail == []) && Rebuilt(before[i], after[i]);
    }
  }

  /** Boxes in their places parse as themselves. */
  lemma {:induction false} Reparse(nodes: seq<Node>, tail: seq<Byte>)
    requires Ranged(nodes, tail)
    ensures Parse(Flat(nodes) + tail) == Some(nodes)
    decreases |nodes|
  {
    hide Parse, Flat, Built, Stated, ToTheEnd, FromBE;
    if nodes != [] {
      assert Placed(nodes[0], 0 == |nodes| - 1 && tail == []);
      var rest := Flat(nodes[1..]) + tail;
      RangedRest(nodes, tail);
      Reparse(nodes[1..], tail);
      FlatFirst(nodes);
      assert Flat(nodes) + tail == nodes[0].all + rest;
      ParseNothing([]);
      assert |nodes| == 1 ==> nodes[1..] == [];
      ParseOne(Flat(nodes) + tail, nodes[0], rest, nodes[1..]);
      assert [nodes[0]] + nodes[1..] == nodes;
    } else {
      ParseNothing(tail);
    }
  }

  lemma RangedRest(nodes: seq<Node>, tail: seq<Byte>)
    requires Ranged(nodes, tail) && nodes != []
    ensures Ranged(nodes[1..], tail)
  {
    hide Placed;
    forall i | 0 <= i < |nodes| - 1
      ensures Placed(nodes[1..][i], i == |nodes| - 2 && tail == [])
    {
      assert Placed(nodes[i + 1], i + 1 == |nodes| - 1 && tail == []);
    }
  }

  datatype Tree = Tree(name: string, kids: seq<Tree>)

  function Shape(nodes: seq<Node>): seq<Tree>
    decreases nodes
  {
    seq(|nodes|, i requires 0 <= i < |nodes| => Tree(nodes[i].name, Shape(nodes[i].kids)))
  }

  // ---- the loop

  /** What parsing from an offset adds to the boxes already found. */
  function After(done: seq<Node>, r: Option<seq<Node>>): Option<seq<Node>> {
    if r.None? then None else Some(done + r.value)
  }

  lemma ParseStep(s: seq<Byte>)
    requires |s| >= 8
    ensures Extent(s).None? ==> Parse(s).None?
    ensures Extent(s).Some? ==>
      var (head, size) := Extent(s).value;
      var name := Name(s[4..8]);
      var kids := if IsContainer(name) then Parse(s[head..size]) else Some([]);
      (kids.None? ==> Parse(s).None?) &&
      (kids.Some? ==> Parse(s) == After([Node(name, head, s[..size], kids.value)], Parse(s[size..])))
  {
  }

  lemma AfterAfter(done: seq<Node>, n: Node, r: Option<seq<Node>>)
    ensures After(done, After([n], r)) == After(done + [n], r)
  {
    if r.Some? {
      assert done + ([n] + r.value) == done + [n] + r.value;
    }
  }

  /** `parse_box_range`: a cursor over the range, recursion into containers. */
  method ParseBoxRange(s: seq<Byte>) returns (r: Option<seq<Node>>)
    ensures r == Parse(s)
    decreases |s|
  {
    hide Parse;
    var boxes: seq<Node> := [];
    var cursor := 0;
    assert s[0..] == s;
    ghost var all := Parse(s);
    if all.Some? {
      assert [] + all.value == all.value;
    }
    while cursor + 8 <= |s|
      invariant cursor <= |s| && Parse(s) == After(boxes, Parse(s[cursor..]))
    {
      var rest := s[cursor..];
      ParseStep(rest);
      var extent := Extent(rest);
      if extent.None? {
        return None;
      }
      var (head, size) := extent.value;
      var name := Name(rest[4..8]);
      var kids: Option<seq<Node>> := Some([]);
      if IsContainer(name) {
        kids := ParseBoxRange(rest[head..size]);
        if kids.None? {
          return None;
        }
      }
      var n := Node(name, head, rest[..size], kids.value);
      AfterAfter(boxes, n, Parse(rest[size..]));
      DropOfDrop(s, cursor, size);
      boxes := boxes + [n];
      cursor := cursor + size;
    }
    ParseNothing(s[cursor..]);
    assert boxes + [] == boxes;
    return Some(boxes);
  }
}
