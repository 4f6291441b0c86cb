/**
 * Base64 credentials: the strict decoder and the two encoders (sections 4 and 5
 * of RFC 4648). The decoder's state is a bit accumulator; the padding and
 * trailing-bit checks make every accepted text canonical.
 */
module Base64 {
  import opened Bytes

  const MaxCredential := 16384
  const MaxEncoded := 65536

  // ---- the alphabet

  type Six = v: nat | v < 64

  function CharOf(v: Six, urlSafe: bool): char
  {
    if v < 26 then 'A' + v as char
    else if v < 52 then 'a' + (v - 26) as char
    else if v < 62 then '0' + (v - 52) as char
    else if v == 62 then (if urlSafe then '-' else '+')
    else if urlSafe then '_' else '/'
  }

  function ValueOf(c: char, urlSafe: bool): Option<Six>
  {
    if 'A' <= c <= 'Z' then Some((c - 'A') as nat)
    else if 'a' <= c <= 'z' then Some((c - 'a') as nat + 26)
    else if '0' <= c <= '9' then Some((c - '0') as nat + 52)
    else if c == (if urlSafe then '-' else '+') then Some(62)
    else if c == (if urlSafe then '_' else '/') then Some(63)
    else None
  }

  lemma AlphabetInverse(v: Six, c: char, urlSafe: bool)
    ensures ValueOf(CharOf(v, urlSafe), urlSafe) == Some(v) && CharOf(v, urlSafe) != '='
    ensures ValueOf(c, urlSafe).Some? ==> CharOf(ValueOf(c, urlSafe).value, urlSafe) == c
  {
  }

  function Text(vs: seq<Six>, urlSafe: bool): (s: string)
    ensures |s| == |vs|
    decreases |vs|
  {
    if vs == [] then ""
    else [CharOf(vs[0], urlSafe)] + Text(vs[1..], urlSafe)
  }

  /** The values of a text; None at a character outside the alphabet. */
  function Values(s: string, urlSafe: bool): (r: Option<seq<Six>>)
    ensures r.Some? ==> |r.value| == |s|
    decreases |s|
  {
    if s == "" then Some([])
    else
      var v, rest := ValueOf(s[0], urlSafe), Values(s[1..], urlSafe);
      if v.None? || rest.None? then None
      else Some([v.value] + rest.value)
  }

  lemma {:induction false} ValuesOfText(vs: seq<Six>, urlSafe: bool)
    ensures Values(Text(vs, urlSafe), urlSafe) == Some(vs) && '=' !in Text(vs, urlSafe)
    decreases |vs|
  {
    if vs != [] {
      AlphabetInverse(vs[0], 'A', urlSafe);
      ValuesOfText(vs[1..], urlSafe);
      assert Text(vs, urlSafe)[1..] == Text(vs[1..], urlSafe);
      assert [vs[0]] + vs[1..] == vs;
    }
  }

  lemma {:induction false} TextOfValues(s: string, urlSafe: bool)
    requires Values(s, urlSafe).Some?
    ensures Text(Values(s, urlSafe).value, urlSafe) == s
    decreases |s|
  {
    if s != "" {
      AlphabetInverse(0, s[0], urlSafe);
      TextOfValues(s[1..], urlSafe);
      var vs := Values(s, urlSafe).value;
      assert vs[1..] == Values(s[1..], urlSafe).value;
      assert [s[0]] + s[1..] == s;
    }
  }

  // ---- grouping

  function Six1(b0: Byte): Six {
    b0 / 4
  }

  function Six2(b0: Byte, b1: Byte): Six {
    b0 % 4 * 16 + b1 / 16
  }

  function Six3(b1: Byte, b2: Byte): Six {
    b1 % 16 * 4 + b2 / 64
  }

  function Six4(b2: Byte): Six {
    b2 % 64
  }

  function Byte1(a: Six, b: Six): Byte {
    a * 4 + b / 16
  }

  function Byte2(b: Six, c: Six): Byte {
    b % 16 * 16 + c / 4
  }

  function Byte3(c: Six, d: Six): Byte {
    c % 4 * 64 + d
  }

  /** Three bytes as four sextets; one byte as two and two as three at the end. */
  function Split(bytes: seq<Byte>): (vs: seq<Six>)
    decreases |bytes|
  {
    if bytes == [] then []
    else
      var b0 := bytes[0];
      if |bytes| == 1 then [Six1(b0), Six2(b0, 0)]
      else
        var b1 := bytes[1];
        if |bytes| == 2 then [Six1(b0), Six2(b0, b1), Six3(b1, 0)]
        else
          var b2 := bytes[2];
          var rest := Split(bytes[3..]);
          [Six1(b0), Six2(b0, b1), Six3(b1, b2), Six4(b2)] + rest
  }

  function Width(bits: nat): (r: nat)
    ensures r > 0
  {
    if bits == 0 then 1 else if bits == 2 then 4 else if bits == 4 then 16 else 64
  }

  /** The accumulator shifted right by the bits that stay. */
  function Pushed(all: nat, bits: nat): (b: Byte)
    requires bits in {0, 2, 4} && all < Width(bits + 2) * 64
  {
    if bits == 0 then all else if bits == 2 then all / 4 else all / 16
  }

  /** The bits that stay. */
  function Left(all: nat, bits: nat): (r: nat)
    requires bits in {0, 2, 4}
    ensures r < Width(bits)
  {
    if bits == 0 then 0 else if bits == 2 then all % 4 else all % 16
  }

  /** The decoding loop: the bytes pushed, and the bits left over. */
  function Feed(vs: seq<Six>, accumulator: nat, bits: nat): (seq<Byte>, nat)
    requires bits in {0, 2, 4, 6} && accumulator < Width(bits)
    decreases |vs|
  {
    if vs == [] then ([], accumulator)
    else
      var all := accumulator * 64 + vs[0];
      if bits == 0 then Feed(vs[1..], all, 6)
      else
        var (rest, end) := Feed(vs[1..], Left(all, bits - 2), bits - 2);
        ([Pushed(all, bits - 2)] + rest, end)
  }

  lemma FeedFirst(v: Six, rest: seq<Six>, accumulator: nat, bits: nat)
    requires bits in {0, 2, 4, 6} && accumulator < Width(bits)
    ensures var all := accumulator * 64 + v;
      (bits == 0 ==> all < 64 && Feed([v] + rest, accumulator, bits) == Feed(rest, all, 6)) &&
      all < Width(bits) * 64 &&
      (bits > 0 ==>
         Feed([v] + rest, accumulator, bits) ==
           Prepended([Pushed(all, bits - 2)], Feed(rest, Left(all, bits - 2), bits - 2)))
  {
    var vs := [v] + rest;
    assert vs[1..] == rest;
  }

  function Prepended(out: seq<Byte>, r: (seq<Byte>, nat)): (seq<Byte>, nat) {
    (out + r.0, r.1)
  }

  lemma Cons<T>(x: T, xs: seq<T>)
    ensures ([x] + xs)[0] == x && ([x] + xs)[1..] == xs
  {
  }

  /** The bits pushed and kept at each step of a group. */
  lemma Shifted(a: Six, b: Six, c: Six, d: Six)
    ensures Width(6) == 64 && Width(4) == 16 && Width(2) == 4 && Width(0) == 1
    ensures Pushed(a * 64 + b, 4) == Byte1(a, b) && Left(a * 64 + b, 4) == b % 16
    ensures Pushed(b % 16 * 64 + c, 2) == Byte2(b, c) && Left(b % 16 * 64 + c, 2) == c % 4
    ensures Pushed(c % 4 * 64 + d, 0) == Byte3(c, d) && Left(c % 4 * 64 + d, 0) == 0
  {
    DivModUnique(a * 64 + b, 16, a * 4 + b / 16, b % 16);
    DivModUnique(b % 16 * 64 + c, 4, b % 16 * 16 + c / 4, c % 4);
  }

  lemma FeedTwoThen(a: Six, b: Six, rest: seq<Six>)
    ensures Feed([a, b] + rest, 0, 0) == Prepended([Byte1(a, b)], Feed(rest, b % 16, 4))
  {
    hide Feed, Width, Byte1, Pushed, Left;
    Shifted(a, b, 0, 0);
    FeedFirst(b, rest, a, 6);
    FeedFirst(a, [b] + rest, 0, 0);
    assert [a] + ([b] + rest) == [a, b] + rest;
  }

  lemma FeedThreeThen(a: Six, b: Six, c: Six, rest: seq<Six>)
    ensures Feed([a, b, c] + rest, 0, 0) == Prepended([Byte1(a, b), Byte2(b, c)], Feed(rest, c % 4, 2))
  {
    hide Feed, Width, Byte1, Byte2, Pushed, Left;
    Shifted(a, b, c, 0);
    FeedFirst(c, rest, b % 16, 4);
    FeedTwoThen(a, b, [c] + rest);
    assert [a, b] + ([c] + rest) == [a, b, c] + rest;
    var r := Feed(rest, c % 4, 2).0;
    assert [Byte1(a, b)] + ([Byte2(b, c)] + r) == [Byte1(a, b), Byte2(b, c)] + r;
  }

  lemma FeedGroup(a: Six, b: Six, c: Six, d: Six, rest: seq<Six>)
    ensures Feed([a, b, c, d] + rest, 0, 0) ==
      Prepended([Byte1(a, b), Byte2(b, c), Byte3(c, d)], Feed(rest, 0, 0))
  {
    hide Feed, Width, Byte1, Byte2, Byte3, Pushed, Left;
    Shifted(a, b, c, d);
    FeedFirst(d, rest, c % 4, 2);
    FeedThreeThen(a, b, c, [d] + rest);
    assert [a, b, c] + ([d] + rest) == [a, b, c, d] + rest;
    var x, y, z := Byte1(a, b), Byte2(b, c), Byte3(c, d);
    var r := Feed(rest, 0, 0).0;
    assert [x, y] + ([z] + r) == [x, y, z] + r;
  }

  lemma FeedTwo(a: Six, b: Six)
    ensures Feed([a, b], 0, 0) == ([Byte1(a, b)], b % 16)
  {
    hide Feed;
    FeedTwoThen(a, b, []);
    FeedEnd(b % 16, 4);
    assert [a, b] + [] == [a, b];
    assert [Byte1(a, b)] + [] == [Byte1(a, b)];
  }

  lemma FeedThree(a: Six, b: Six, c: Six)
    ensures Feed([a, b, c], 0, 0) == ([Byte1(a, b), Byte2(b, c)], c % 4)
  {
    hide Feed;
    FeedThreeThen(a, b, c, []);
    FeedEnd(c % 4, 2);
    assert [a, b, c] + [] == [a, b, c];
    var xs := [Byte1(a, b), Byte2(b, c)];
    assert xs + [] == xs;
  }

  lemma FeedEnd(accumulator: nat, bits: nat)
    requires bits in {0, 2, 4, 6} && accumulator < Width(bits)
    ensures Feed([], accumulator, bits) == ([], accumulator)
  {
  }

  /** The bits of three bytes survive the regrouping. */
  lemma Regrouped(b0: Byte, b1: Byte, b2: Byte)
    ensures Byte1(Six1(b0), Six2(b0, b1)) == b0
    ensures Byte2(Six2(b0, b1), Six3(b1, b2)) == b1
    ensures Byte3(Six3(b1, b2), Six4(b2)) == b2
    ensures Six2(b0, 0) % 16 == 0 && Six3(b1, 0) % 4 == 0
  {
    DivModUnique(b0 % 4 * 16 + b1 / 16, 16, b0 % 4, b1 / 16);
    DivModUnique(b1 % 16 * 4 + b2 / 64, 4, b1 % 16, b2 / 64);
    DivModUnique(b0 % 4 * 16 + 0, 16, b0 % 4, 0);
    DivModUnique(b1 % 16 * 4 + 0, 4, b1 % 16, 0);
  }

  lemma SplitShape(bytes: seq<Byte>)
    requires bytes != []
    ensures var b0, b1, b2 := bytes[0], if |bytes| > 1 then bytes[1] else 0, if |bytes| > 2 then bytes[2] else 0;
      (|bytes| == 1 ==> Split(bytes) == [Six1(b0), Six2(b0, b1)]) &&
      (|bytes| == 2 ==> Split(bytes) == [Six1(b0), Six2(b0, b1), Six3(b1, b2)]) &&
      (|bytes| > 2 ==>
         Split(bytes) == [Six1(b0), Six2(b0, b1), Six3(b1, b2), Six4(b2)] + Split(bytes[3..]))
  {
  }

  lemma {:induction false} FeedSplit(bytes: seq<Byte>)
    ensures Feed(Split(bytes), 0, 0) == (bytes, 0)
    ensures |Split(bytes)| * 6 / 8 == |bytes| && |Split(bytes)| % 4 != 1
    decreases |bytes|
  {
    hide Feed, Split, Six1, Six2, Six3, Six4, Byte1, Byte2, Byte3;
    if bytes == [] {
      FeedNothing();
      SplitNothing();
    } else {
      SplitShape(bytes);
      var b0, b1, b2 := bytes[0], if |bytes| > 1 then bytes[1] else 0, if |bytes| > 2 then bytes[2] else 0;
      Regrouped(b0, b1, b2);
      if |bytes| == 1 {
        FeedTwo(Six1(b0), Six2(b0, b1));
        assert bytes == [b0];
      } else if |bytes| == 2 {
        FeedThree(Six1(b0), Six2(b0, b1), Six3(b1, b2));
        assert bytes == [b0, b1];
      } else {
        FeedSplit(bytes[3..]);
        FeedGroup(Six1(b0), Six2(b0, b1), Six3(b1, b2), Six4(b2), Split(bytes[3..]));
        assert bytes == [b0, b1, b2] + bytes[3..];
      }
    }
  }

  lemma FeedNothing()
    ensures Feed([], 0, 0) == ([], 0)
  {
  }

  /** And back: the sextets of three rebuilt bytes. */
  lemma Ungrouped(a: Six, b: Six, c: Six, d: Six)
    ensures Six1(Byte1(a, b)) == a && Six2(Byte1(a, b), Byte2(b, c)) == b
    ensures Six3(Byte2(b, c), Byte3(c, d)) == c && Six4(Byte3(c, d)) == d
    ensures b % 16 == 0 ==> Six2(Byte1(a, b), 0) == b
    ensures c % 4 == 0 ==> Six3(Byte2(b, c), 0) == c
  {
    DivModUnique(a * 4 + b / 16, 4, a, b / 16);
    DivModUnique(b % 16 * 16 + c / 4, 16, b % 16, c / 4);
    DivModUnique(c % 4 * 64 + d, 64, c % 4, d);
  }

  lemma SplitThree(a: Six, b: Six, c: Six, d: Six, rest: seq<Byte>)
    ensures Split([Byte1(a, b), Byte2(b, c), Byte3(c, d)] + rest) == [a, b, c, d] + Split(rest)
  {
    hide Split, Six1, Six2, Six3, Six4, Byte1, Byte2, Byte3;
    var bytes := [Byte1(a, b), Byte2(b, c), Byte3(c, d)] + rest;
    assert bytes[3..] == rest;
    SplitShape(bytes);
    Ungrouped(a, b, c, d);
  }

  /** With no bits left over, decoding and splitting again gives the same sextets. */
  lemma {:induction false} SplitFeed(vs: seq<Six>)
    requires |vs| % 4 != 1 && Feed(vs, 0, 0).1 == 0
    ensures Split(Feed(vs, 0, 0).0) == vs
    decreases |vs|
  {
    hide Feed, Split, Six1, Six2, Six3, Six4, Byte1, Byte2, Byte3;
    if vs == [] {
      FeedNothing();
      SplitNothing();
    } else if |vs| == 2 {
      assert vs == [vs[0], vs[1]];
      FeedTwo(vs[0], vs[1]);
      SplitOne(vs[0], vs[1]);
    } else if |vs| == 3 {
      assert vs == [vs[0], vs[1], vs[2]];
      FeedThree(vs[0], vs[1], vs[2]);
      SplitTwo(vs[0], vs[1], vs[2]);
    } else {
      var rest := vs[4..];
      assert vs == [vs[0], vs[1], vs[2], vs[3]] + rest;
      FeedGroup(vs[0], vs[1], vs[2], vs[3], rest);
      SplitFeed(rest);
      SplitThree(vs[0], vs[1], vs[2], vs[3], Feed(rest, 0, 0).0);
    }
  }

  lemma SplitNothing()
    ensures Split([]) == []
  {
  }

  lemma SplitOne(a: Six, b: Six)
    requires b % 16 == 0
    ensures Split([Byte1(a, b)]) == [a, b]
  {
    hide Split, Six1, Six2, Six3, Six4, Byte1, Byte2, Byte3;
    SplitShape([Byte1(a, b)]);
    Ungrouped(a, b, 0, 0);
  }

  lemma SplitTwo(a: Six, b: Six, c: Six)
    requires c % 4 == 0
    ensures Split([Byte1(a, b), Byte2(b, c)]) == [a, b, c]
  {
    hide Split, Six1, Six2, Six3, Six4, Byte1, Byte2, Byte3;
    SplitShape([Byte1(a, b), Byte2(b, c)]);
    Ungrouped(a, b, c, 0);
  }

  // ---- encoding and decoding

  function Padding(n: nat): string {
    if n % 4 == 2 then "==" else if n % 4 == 3 then "=" else ""
  }

  /** `base64_encode`: padded, standard alphabet. */
  function Encode(bytes: seq<Byte>): string {
    Text(Split(bytes), false) + Padding(|Split(bytes)|)
  }

  /** `base64url`: unpadded, URL-safe alphabet. */
  function EncodeUrl(bytes: seq<Byte>): string {
    Text(Split(bytes), true)
  }

  function PadStart(s: string): (r: nat)
    ensures r <= |s| && (r < |s| ==> s[r] == '=') && forall i | 0 <= i < r :: s[i] != '='
    decreases |s|
  {
    if s == "" || s[0] == '=' then 0 else 1 + PadStart(s[1..])
  }

  predicate BadPadding(s: string, urlSafe: bool) {
    var data := PadStart(s);
    var padding := |s| - data;
    padding > 2 || (padding > 0 && (|s| % 4 != 0 || exists i | data <= i < |s| :: s[i] != '=')) || data % 4 == 1 ||
    (!urlSafe && padding == 0 && data % 4 != 0) || (padding > 0 && padding != 4 - data % 4)
  }

  /** `decode_base64_token`, None for an exception. */
  function Decode(s: string, urlSafe: bool): Option<seq<Byte>> {
    if s == "" || |s| > MaxEncoded || BadPadding(s, urlSafe) then None
    else
      var data := PadStart(s);
      var size := data * 6 / 8;
      if size == 0 || size > MaxCredential then None
      else
        match Values(s[..data], urlSafe)
        case None => None
        case Some(vs) =>
          var (out, left) := Feed(vs, 0, 0);
          if left != 0 then None else Some(out)
  }

  lemma PadStartIs(a: string, b: string)
    requires '=' !in a && forall i | 0 <= i < |b| :: b[i] == '='
    ensures PadStart(a + b) == |a| && (a + b)[..|a|] == a
  {
    var s := a + b;
    assert forall i | 0 <= i < |a| :: s[i] == a[i] && a[i] in a;
    assert |a| < |s| ==> s[|a|] == b[0];
    var r := PadStart(s);
    assert r < |s| ==> s[r] == '=';
  }

  lemma PaddingIsEquals(n: nat)
    ensures var p := Padding(n); |p| <= 2 && forall i | 0 <= i < |p| :: p[i] == '='
  {
  }

  /** Decoding inverts the padded encoder for every credential of 1 to 16384 bytes. */
  lemma RoundTrip(bytes: seq<Byte>)
    requires 1 <= |bytes| <= MaxCredential
    ensures Decode(Encode(bytes), false) == Some(bytes)
  {
    hide Text, Values, Feed, Split;
    var vs := Split(bytes);
    var t, p := Text(vs, false), Padding(|vs|);
    FeedSplit(bytes);
    ValuesOfText(vs, false);
    PaddingIsEquals(|vs|);
    PadStartIs(t, p);
    assert forall i | |t| <= i < |t + p| :: (t + p)[i] == p[i - |t|];
  }

  /** And the unpadded URL-safe one. */
  lemma UrlRoundTrip(bytes: seq<Byte>)
    requires 1 <= |bytes| <= MaxCredential
    ensures Decode(EncodeUrl(bytes), true) == Some(bytes)
  {
    hide Text, Values, Feed, Split;
    var vs := Split(bytes);
    var t := Text(vs, true);
    FeedSplit(bytes);
    ValuesOfText(vs, true);
    PadStartIs(t, "");
    assert t + "" == t;
  }

  /** Any accepted standard text is the encoding of what it decodes to. */
  lemma AcceptedIsCanonical(s: string)
    requires Decode(s, false).Some?
    ensures Encode(Decode(s, false).value) == s
  {
    hide Text, Values, Feed, Split;
    var data := PadStart(s);
    var vs := Values(s[..data], false).value;
    SplitFeed(vs);
    TextOfValues(s[..data], false);
    assert s == s[..data] + s[data..];
    assert s[data..] == Padding(data);
  }

  /** Standard decoding is injective. */
  lemma DecodingIsInjective(s: string, t: string)
    requires Decode(s, false).Some? && Decode(s, false) == Decode(t, false)
    ensures s == t
  {
    hide Decode, Encode;
    AcceptedIsCanonical(s);
    AcceptedIsCanonical(t);
  }

  // ---- the loops

  /** The accumulator loop over the data characters. */
  method DecodeData(s: string, urlSafe: bool) returns (r: Option<(seq<Byte>, nat)>)
    ensures r == match Values(s, urlSafe) case None => None case Some(vs) => Some(Feed(vs, 0, 0))
  {
    var output: seq<Byte> := [];
    var accumulator: nat, bits: nat := 0, 0;
    ghost var all := Values(s, urlSafe);
    assert s[0..] == s;
    ghost var rest: seq<Six> := [];
    if all.Some? {
      rest := all.value;
      assert [] + Feed(rest, 0, 0).0 == Feed(rest, 0, 0).0;
    }
    for i := 0 to |s|
      invariant bits in {0, 2, 4, 6} && accumulator < Width(bits)
      invariant all.Some? <==> Values(s[i..], urlSafe).Some?
      invariant all.Some? ==> rest == Values(s[i..], urlSafe).value
      invariant all.Some? ==> Feed(all.value, 0, 0) == Prepended(output, Feed(rest, accumulator, bits))
    {
      hide Values, Feed, ValueOf, Pushed, Left;
      var value := ValueOf(s[i], urlSafe);
      ValuesStep(s, i, urlSafe);
      if value.None? {
        return None;
      }
      if all.Some? {
        FeedStep(output, rest, accumulator, bits);
        rest := rest[1..];
      }
      accumulator := accumulator * 64 + value.value;
      bits := bits + 6;
      if bits >= 8 {
        bits := bits - 8;
        output := output + [Pushed(accumulator, bits)];
        accumulator := Left(accumulator, bits);
      }
    }
    assert s[|s|..] == "";
    assert output + [] == output;
    return Some((output, accumulator));
  }

  lemma ValuesStep(s: string, i: nat, urlSafe: bool)
    requires i < |s|
    ensures var v, rest, more := ValueOf(s[i], urlSafe), Values(s[i..], urlSafe), Values(s[i + 1..], urlSafe);
      (rest.Some? <==> v.Some? && more.Some?) && (rest.Some? ==> rest.value == [v.value] + more.value)
  {
    assert s[i..][1..] == s[i + 1..];
  }

  lemma FeedStep(output: seq<Byte>, rest: seq<Six>, accumulator: nat, bits: nat)
    requires rest != [] && bits in {0, 2, 4, 6} && accumulator < Width(bits)
    ensures var all := accumulator * 64 + rest[0];
      all < Width(bits) * 64 &&
      (bits == 0 ==> all < 64 && Prepended(output, Feed(rest, accumulator, bits)) == Prepended(output, Feed(rest[1..], all, 6))) &&
      (bits > 0 ==>
         Prepended(output, Feed(rest, accumulator, bits)) ==
           Prepended(output + [Pushed(all, bits - 2)], Feed(rest[1..], Left(all, bits - 2), bits - 2)))
  {
    hide Feed, Pushed, Left;
    assert [rest[0]] + rest[1..] == rest;
    FeedFirst(rest[0], rest[1..], accumulator, bits);
    if bits > 0 {
      var all := accumulator * 64 + rest[0];
      var more := Feed(rest[1..], Left(all, bits - 2), bits - 2).0;
      assert output + ([Pushed(all, bits - 2)] + more) == output + [Pushed(all, bits - 2)] + more;
    }
  }

  /** `decode_base64_token`. */
  method DecodeToken(s: string, urlSafe: bool) returns (r: Option<seq<Byte>>)
    ensures r == Decode(s, urlSafe)
  {
    hide Values, Feed, BadPadding;
    if s == "" || |s| > MaxEncoded || BadPadding(s, urlSafe) {
      return None;
    }
    var data := PadStart(s);
    var size := data * 6 / 8;
    if size == 0 || size > MaxCredential {
      return None;
    }
    var decoded := DecodeData(s[..data], urlSafe);
    if decoded.None? || decoded.value.1 != 0 {
      return None;
    }
    return Some(decoded.value.0);
  }

  function Word(b0: nat, b1: nat, b2: nat): nat {
    b0 * 65536 + b1 * 256 + b2
  }

  /** Six bits of a 24-bit word, most significant first. */
  function Bits(w: nat, k: nat): Six {
    if k == 0 then w / 262144 % 64 else if k == 1 then w / 4096 % 64 else if k == 2 then w / 64 % 64 else w % 64
  }

  lemma WordBits(b0: Byte, b1: Byte, b2: Byte)
    ensures var w := Word(b0, b1, b2);
      Bits(w, 0) == Six1(b0) && Bits(w, 1) == Six2(b0, b1) && Bits(w, 2) == Six3(b1, b2) && Bits(w, 3) == Six4(b2)
  {
    var w := Word(b0, b1, b2);
    DivModUnique(w, 262144, b0 / 4, b0 % 4 * 65536 + b1 * 256 + b2);
    DivModUnique(w, 4096, b0 * 16 + b1 / 16, b1 % 16 * 256 + b2);
    DivModUnique(b0 * 16 + b1 / 16, 64, b0 / 4, b0 % 4 * 16 + b1 / 16);
    DivModUnique(w, 64, b0 * 1024 + b1 * 4 + b2 / 64, b2 % 64);
    DivModUnique(b0 * 1024 + b1 * 4 + b2 / 64, 64, b0 * 16 + b1 / 16, b1 % 16 * 4 + b2 / 64);
  }

  lemma TextFirst(v: Six, rest: seq<Six>, urlSafe: bool)
    ensures Text([v] + rest, urlSafe) == [CharOf(v, urlSafe)] + Text(rest, urlSafe)
  {
    Cons(v, rest);
  }

  lemma TextNothing(urlSafe: bool)
    ensures Text([], urlSafe) == ""
  {
  }

  lemma TextTwo(a: Six, b: Six, rest: seq<Six>, urlSafe: bool)
    ensures Text([a, b] + rest, urlSafe) == [CharOf(a, urlSafe), CharOf(b, urlSafe)] + Text(rest, urlSafe)
  {
    hide Text;
    TextFirst(b, rest, urlSafe);
    TextFirst(a, [b] + rest, urlSafe);
    assert [a] + ([b] + rest) == [a, b] + rest;
  }

  /** The text of one group, by how many bytes it has. */
  lemma TextGroup(a: Six, b: Six, c: Six, d: Six, rest: seq<Six>, urlSafe: bool)
    ensures Text([a, b], urlSafe) == [CharOf(a, urlSafe), CharOf(b, urlSafe)]
    ensures Text([a, b, c], urlSafe) == [CharOf(a, urlSafe), CharOf(b, urlSafe), CharOf(c, urlSafe)]
    ensures Text([a, b, c, d] + rest, urlSafe) ==
        [CharOf(a, urlSafe), CharOf(b, urlSafe), CharOf(c, urlSafe), CharOf(d, urlSafe)] + Text(rest, urlSafe)
  {
    hide Text, CharOf;
    TextNothing(urlSafe);
    TextTwo(a, b, [], urlSafe);
    assert [a, b] + [] == [a, b] && [CharOf(a, urlSafe), CharOf(b, urlSafe)] + "" == [CharOf(a, urlSafe), CharOf(b, urlSafe)];
    TextFirst(c, [], urlSafe);
    assert [c] + [] == [c];
    TextTwo(a, b, [c], urlSafe);
    assert [a, b] + [c] == [a, b, c];
    TextTwo(c, d, rest, urlSafe);
    TextTwo(a, b, [c, d] + rest, urlSafe);
    assert [a, b] + ([c, d] + rest) == [a, b, c, d] + rest;
  }

  /** The four characters of a group of one to three bytes. */
  function Group(b0: Byte, b1: Byte, b2: Byte, n: nat): string {
    var w := Word(b0, b1, b2);
    [CharOf(Bits(w, 0), false), CharOf(Bits(w, 1), false),
     if n > 1 then CharOf(Bits(w, 2), false) else '=', if n > 2 then CharOf(Bits(w, 3), false) else '=']
  }

  /** What is still to be encoded. */
  lemma EncodeStep(rest: seq<Byte>)
    requires rest != []
    ensures var n := |rest|;
      var group := Group(rest[0], if n > 1 then rest[1] else 0, if n > 2 then rest[2] else 0, n);
      Encode(rest) == group + Encode(if n > 3 then rest[3..] else [])
  {
    hide Text, CharOf, Split, Word, Bits, Six1, Six2, Six3, Six4, Padding;
    var n := |rest|;
    var b0, b1, b2 := rest[0], if n > 1 then rest[1] else 0, if n > 2 then rest[2] else 0;
    WordBits(b0, b1, b2);
    SplitShape(rest);
    var a, b, c, d := Six1(b0), Six2(b0, b1), Six3(b1, b2), Six4(b2);
    var more := if n > 3 then rest[3..] else [];
    if n == 3 {
      assert rest[3..] == [];
    }
    TextGroup(a, b, c, d, Split(more), false);
    EncodeNothing();
    SplitNothing();
    PaddingOf(|Split(more)|);
    GroupText(Group(b0, b1, b2, n), Text(Split(more), false), Padding(|Split(more)|), [CharOf(a, false), CharOf(b, false)],
              CharOf(c, false));
  }

  lemma PaddingOf(n: nat)
    ensures Padding(2) == "==" && Padding(3) == "=" && Padding(4 + n) == Padding(n)
  {
  }

  lemma GroupText(group: string, text: string, padding: string, two: string, c: char)
    requires |two| == 2
    ensures group + text + padding == group + (text + padding) && group + "" == group
    ensures two + "==" == [two[0], two[1], '=', '='] && [two[0], two[1], c] + "=" == [two[0], two[1], c, '=']
  {
  }

  /** `base64_encode`: three bytes at a time, the tail padded. */
  method EncodeStandard(bytes: seq<Byte>) returns (encoded: string)
    ensures encoded == Encode(bytes)
  {
    hide Encode, CharOf, Word, Bits;
    encoded := "";
    var offset := 0;
    ghost var rest := bytes;
    EncodeNothing();
    while offset < |bytes|
      invariant rest == if offset <= |bytes| then bytes[offset..] else []
      invariant encoded + Encode(rest) == Encode(bytes)
    {
      EncodeStep(rest);
      ghost var before := encoded;
      var n := |bytes| - offset;
      var b0 := bytes[offset];
      var b1 := if n > 1 then bytes[offset + 1] else 0;
      var b2 := if n > 2 then bytes[offset + 2] else 0;
      var word := Word(b0, b1, b2);
      encoded := encoded + [CharOf(Bits(word, 0), false)];
      encoded := encoded + [CharOf(Bits(word, 1), false)];
      encoded := encoded + [if n > 1 then CharOf(Bits(word, 2), false) else '='];
      encoded := encoded + [if n > 2 then CharOf(Bits(word, 3), false) else '='];
      assert encoded == before + Group(b0, b1, b2, n);
      ghost var more := if n > 3 then rest[3..] else [];
      assert before + (Group(b0, b1, b2, n) + Encode(more)) == encoded + Encode(more);
      if n >= 3 {
        DropOfDrop(bytes, offset, 3);
      }
      offset := offset + 3;
      rest := more;
    }
    assert encoded + "" == encoded;
  }

  lemma EncodeNothing()
    ensures Encode([]) == ""
  {
  }

  /** `base64url`. */
  method EncodeUrlSafe(bytes: seq<Byte>) returns (out: string)
    ensures out == EncodeUrl(bytes)
  {
    hide Split, Text, CharOf, Word, Bits;
    out := "";
    var i := 0;
    assert bytes[0..] == bytes;
    while i + 3 <= |bytes|
      invariant i <= |bytes| && out + EncodeUrl(bytes[i..]) == EncodeUrl(bytes)
    {
      var b0, b1, b2 := bytes[i], bytes[i + 1], bytes[i + 2];
      UrlStep(bytes[i..]);
      DropOfDrop(bytes, i, 3);
      var word := Word(b0, b1, b2);
      var group := [CharOf(Bits(word, 0), true), CharOf(Bits(word, 1), true), CharOf(Bits(word, 2), true),
                    CharOf(Bits(word, 3), true)];
      assert out + (group + EncodeUrl(bytes[i + 3..])) == out + group + EncodeUrl(bytes[i + 3..]);
      out := out + group;
      i := i + 3;
    }
    var left := |bytes| - i;
    if left > 0 {
      UrlStep(bytes[i..]);
      var word := Word(bytes[i], if left == 2 then bytes[i + 1] else 0, 0);
      out := out + [CharOf(Bits(word, 0), true), CharOf(Bits(word, 1), true)] +
             if left == 2 then [CharOf(Bits(word, 2), true)] else [];
    } else {
      assert bytes[i..] == [];
      SplitNothing();
      TextNothing(true);
      assert out + "" == out;
    }
  }

  lemma UrlStep(rest: seq<Byte>)
    requires rest != []
    ensures var n := |rest|;
      var w := Word(rest[0], if n > 1 then rest[1] else 0, if n > 2 then rest[2] else 0);
      (n == 1 ==> EncodeUrl(rest) == [CharOf(Bits(w, 0), true), CharOf(Bits(w, 1), true)]) &&
      (n == 2 ==>
         EncodeUrl(rest) == [CharOf(Bits(w, 0), true), CharOf(Bits(w, 1), true), CharOf(Bits(w, 2), true)]) &&
      (n > 2 ==>
         EncodeUrl(rest) == [CharOf(Bits(w, 0), true), CharOf(Bits(w, 1), true), CharOf(Bits(w, 2), true), CharOf(Bits(w, 3), true)] +
         EncodeUrl(rest[3..]))
  {
    hide Text, CharOf, Split, Word, Bits, Six1, Six2, Six3, Six4;
    var n := |rest|;
    var b0, b1, b2 := rest[0], if n > 1 then rest[1] else 0, if n > 2 then rest[2] else 0;
    WordBits(b0, b1, b2);
    Regrouped(b0, b1, b2);
    SplitShape(rest);
    TextGroup(Six1(b0), Six2(b0, b1), Six3(b1, b2), Six4(b2), if n > 2 then Split(rest[3..]) else [], true);
  }
}
