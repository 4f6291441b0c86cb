/** Writing MP4 boxes: `make_box` and `make_full_box`, and what the parser makes of them. */
module BoxWriter {
  import opened Bytes
  import opened Mp4Boxes

  type FourCC = s: string | |s| == 4 && forall i | 0 <= i < |s| :: s[i] < 256 as char witness "mdat"

  function Ascii(name: FourCC): (r: seq<Byte>)
    ensures |r| == 4
  {
    seq(4, i requires 0 <= i < 4 => name[i] as int)
  }

  /** The size field holds the low 32 bits of the size. */
  function Box(name: FourCC, payload: seq<Byte>): (r: seq<Byte>)
    ensures |r| == 8 + |payload| && r[8..] == payload
  {
    BE(4, 8 + |payload|) + Ascii(name) + payload
  }

  function FullBox(name: FourCC, version: Byte, flags: nat, payload: seq<Byte>): (r: seq<Byte>)
    ensures |r| == 12 + |payload|
  {
    Box(name, [version] + BE(3, flags) + payload)
  }

  /** A written box is a node under a header that states its size. */
  lemma BoxBuilt(name: FourCC, payload: seq<Byte>, kids: seq<Node>)
    requires 8 + |payload| <= MaxU32
    requires if IsContainer(name) then Parse(payload) == Some(kids) else kids == []
    ensures var n := Node(name, 8, Box(name, payload), kids);
      Built(n) && Stated(n)
  {
    hide Parse, IsContainer, BE, FromBE, Box, Ascii, Name;
    BoxHeader(name, payload);
    Pow256Values();
    ReadBackBE(4, 8 + |payload|);
    HeaderBuilt(name, Box(name, payload), payload, kids);
  }

  lemma HeaderBuilt(name: string, all: seq<Byte>, payload: seq<Byte>, kids: seq<Node>)
    requires |all| == 8 + |payload| && Name(all[4..8]) == name && all[8..] == payload && FromBE(all[..4]) == |all|
    requires if IsContainer(name) then Parse(payload) == Some(kids) else kids == []
    ensures Built(Node(name, 8, all, kids)) && Stated(Node(name, 8, all, kids))
  {
    hide Parse, IsContainer, FromBE, Name;
  }

  lemma FullBoxBuilt(name: FourCC, version: Byte, flags: nat, payload: seq<Byte>)
    requires 12 + |payload| <= MaxU32 && !IsContainer(name)
    ensures var n := Node(name, 8, FullBox(name, version, flags, payload), []);
      Built(n) && Stated(n)
  {
    hide Parse, IsContainer, Box, Built, Stated;
    BoxBuilt(name, [version] + BE(3, flags) + payload, []);
  }

  lemma BoxHeader(name: FourCC, payload: seq<Byte>)
    ensures var all := Box(name, payload);
      all[..4] == BE(4, 8 + |payload|) && Name(all[4..8]) == name && all[8..] == payload
  {
    hide BE;
    var all := Box(name, payload);
    assert all[4..8] == Ascii(name);
    assert Name(Ascii(name)) == name;
  }

  lemma ParseLast(n: Node)
    requires Built(n) && Stated(n)
    ensures Parse(n.all) == Some([n])
  {
    hide Built, Stated, ToTheEnd, Parse;
    ParseNothing([]);
    assert n.all == n.all + [];
    ParseOne(n.all, n, [], []);
    assert [n] + [] == [n];
  }

  lemma ParsePair(a: Node, b: Node)
    requires Built(a) && Stated(a) && Built(b) && Stated(b)
    ensures Parse(a.all + b.all) == Some([a, b])
  {
    hide Built, Stated, ToTheEnd, Parse;
    ParseLast(b);
    ParseOne(a.all + b.all, a, b.all, [b]);
    assert [a] + [b] == [a, b];
  }

  lemma ParseTriple(a: Node, b: Node, c: Node)
    requires Built(a) && Stated(a) && Built(b) && Stated(b) && Built(c) && Stated(c)
    ensures Parse(a.all + b.all + c.all) == Some([a, b, c])
  {
    hide Built, Stated, ToTheEnd, Parse;
    ParsePair(b, c);
    assert a.all + b.all + c.all == a.all + (b.all + c.all);
    ParseOne(a.all + b.all + c.all, a, b.all + c.all, [b, c]);
    assert [a] + [b, c] == [a, b, c];
  }

  // ---- what nests

  /** The boxes whose payload is boxes. */
  const Nesting := ["moov", "trak", "mdia", "minf", "stbl", "moof", "traf", "mvex", "edts", "dinf", "meta"]

  /** A written box alone: one of a nesting type parses exactly when its payload does, into those boxes; any other is a leaf. */
  lemma BoxParsesExactly(name: FourCC, payload: seq<Byte>)
    requires 8 + |payload| <= MaxU32
    ensures Parse(Box(name, payload)) ==
      if name !in Nesting then Some([Node(name, 8, Box(name, payload), [])])
      else if Parse(payload).None? then None
      else Some([Node(name, 8, Box(name, payload), Parse(payload).value)])
  {
    hide Parse, Box, Built, Stated, IsContainer;
    Nests(name);
    if IsContainer(name) && Parse(payload).None? {
      BadPayload(name, payload);
    } else {
      var kids := if IsContainer(name) then Parse(payload).value else [];
      BoxBuilt(name, payload, kids);
      ParseLast(Node(name, 8, Box(name, payload), kids));
    }
  }

  lemma Nests(name: string)
    ensures IsContainer(name) <==> name in Nesting
  {
    assert forall i | 0 <= i < |Nesting| :: IsContainer(Nesting[i]);
    assert Nesting[0] == "moov" && Nesting[1] == "trak" && Nesting[2] == "mdia" && Nesting[3] == "minf";
    assert Nesting[4] == "stbl" && Nesting[5] == "moof" && Nesting[6] == "traf" && Nesting[7] == "mvex";
    assert Nesting[8] == "edts" && Nesting[9] == "dinf" && Nesting[10] == "meta";
  }

  lemma BadPayload(name: FourCC, payload: seq<Byte>)
    requires 8 + |payload| <= MaxU32 && IsContainer(name) && Parse(payload).None?
    ensures Parse(Box(name, payload)).None?
  {
    hide Parse, Box, IsContainer, FromBE, BE;
    var all := Box(name, payload);
    BoxHeader(name, payload);
    Pow256Values();
    ReadBackBE(4, 8 + |payload|);
    assert all[8..|all|] == payload;
    ParseStep(all);
  }

  /** A payload inside a path of boxes, the outermost first. */
  function Wrap(path: seq<FourCC>, payload: seq<Byte>): (r: seq<Byte>)
    ensures |r| == 8 * |path| + |payload|
  {
    if path == [] then payload else Box(path[0], Wrap(path[1..], payload))
  }

  function Wrapped(path: seq<FourCC>, payload: seq<Byte>, kids: seq<Node>): seq<Node> {
    if path == [] then kids else [Node(path[0], 8, Wrap(path, payload), Wrapped(path[1..], payload, kids))]
  }

  /** However deep boxes nest, as the tables of a track do in moov, trak, mdia, minf and stbl, the parser gets down to them. */
  lemma {:induction false} NestedParses(path: seq<FourCC>, payload: seq<Byte>, kids: seq<Node>)
    requires (forall name | name in path :: name in Nesting) && 8 * |path| + |payload| <= MaxU32 && Parse(payload) == Some(kids)
    ensures Parse(Wrap(path, payload)) == Some(Wrapped(path, payload, kids))
  {
    hide Parse, Box;
    if path != [] {
      NestedParses(path[1..], payload, kids);
      BoxParsesExactly(path[0], Wrap(path[1..], payload));
    }
  }
}
