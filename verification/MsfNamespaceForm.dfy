/** Which texts decode to an identifier: any spelling of its elements, joined by hyphens. */
module MsfNamespaceForm {
  import opened Bytes
  import opened MsfNamespace

  predicate IsPlain(c: char) {
    'a' <= c <= 'z' || 'A' <= c <= 'Z' || '0' <= c <= '9' || c == '_'
  }

  predicate IsHexDigit(c: char) {
    '0' <= c <= '9' || 'a' <= c <= 'f' || 'A' <= c <= 'F'
  }

  function HexValue(c: char): nat
    requires IsHexDigit(c)
    ensures HexValue(c) < 16
  {
    if c <= '9' then (c - '0') as nat else if c <= 'F' then (c - 'A') as nat + 10 else (c - 'a') as nat + 10
  }

  lemma HexExactly(c: char)
    ensures DigitOf(c) == if IsHexDigit(c) then Some(HexValue(c)) else None
  {
  }

  /** A byte as a letter, digit or underscore, or as a dot and two hexadecimal digits. */
  datatype Piece = Plain(c: char) | Dotted(high: char, low: char) {
    predicate Valid() {
      if Plain? then IsPlain(c) else IsHexDigit(high) && IsHexDigit(low)
    }

    function Text(): string {
      if Plain? then [c] else ['.', high, low]
    }

    function Value(): char
      requires Valid()
    {
      if Plain? then c else (HexValue(high) * 16 + HexValue(low)) as char
    }
  }

  predicate AllValid(ps: seq<Piece>) {
    forall p | p in ps :: p.Valid()
  }

  function Text(ps: seq<Piece>): string {
    if ps == [] then "" else ps[0].Text() + Text(ps[1..])
  }

  function Values(ps: seq<Piece>): string
    requires AllValid(ps)
  {
    seq(|ps|, i requires 0 <= i < |ps| => ps[i].Value())
  }

  ghost predicate Spelled(text: string, element: string, ps: seq<Piece>) {
    AllValid(ps) && text == Text(ps) && element == Values(ps)
  }

  ghost predicate Spells(text: string, element: string) {
    exists ps :: Spelled(text, element, ps)
  }

  lemma FirstPiece(p: Piece, rest: string)
    requires p.Valid()
    ensures Unescape(p.Text() + rest) == Push(p.Value(), Unescape(rest))
  {
    var s := p.Text() + rest;
    if p.Plain? {
      assert s[0] == p.c && s[1..] == rest;
    } else {
      assert s[0] == '.' && s[1] == p.high && s[2] == p.low && s[3..] == rest;
      HexExactly(p.high);
      HexExactly(p.low);
    }
  }

  lemma {:induction false} SpellingRead(ps: seq<Piece>)
    requires AllValid(ps)
    ensures Unescape(Text(ps)) == Some(Values(ps))
  {
    hide Unescape;
    if ps == [] {
      NothingEscaped();
    } else {
      SpellingRead(ps[1..]);
      FirstPiece(ps[0], Text(ps[1..]));
      assert Values(ps) == [ps[0].Value()] + Values(ps[1..]);
    }
  }

  lemma PieceInFront(s: string) returns (p: Piece, rest: string)
    requires s != "" && Unescape(s).Some?
    ensures p.Valid() && s == p.Text() + rest && Unescape(s) == Push(p.Value(), Unescape(rest))
  {
    p := if s[0] == '.' then Dotted(s[1], s[2]) else Plain(s[0]);
    rest := if s[0] == '.' then s[3..] else s[1..];
    if s[0] == '.' {
      HexExactly(s[1]);
      HexExactly(s[2]);
    }
    assert s == p.Text() + rest;
  }

  lemma {:induction false} SpellingWas(s: string) returns (ps: seq<Piece>)
    requires Unescape(s).Some?
    ensures Spelled(s, Unescape(s).value, ps)
    decreases |s|
  {
    hide Unescape;
    ps := [];
    if s == "" {
      NothingEscaped();
    } else {
      var p, rest := PieceInFront(s);
      var more := SpellingWas(rest);
      ps := [p] + more;
      assert ps[1..] == more;
      assert Values(ps) == [p.Value()] + Values(more);
    }
  }

  /** A text is taken for an element exactly when it spells it. */
  lemma UnescapesExactly(text: string, element: string)
    ensures Unescape(text) == Some(element) <==> Spells(text, element)
  {
    hide Unescape;
    if Unescape(text) == Some(element) {
      var ps := SpellingWas(text);
    }
    if ps :| Spelled(text, element, ps) {
      SpellingRead(ps);
    }
  }

  // ---- the identifier

  function WithHyphens(texts: seq<string>): string
    requires texts != []
    decreases |texts|
  {
    if |texts| == 1 then texts[0] else texts[0] + "-" + WithHyphens(texts[1..])
  }

  /** Texts that spell the elements of a namespace, none empty. */
  ghost predicate SpellsAll(texts: seq<string>, elements: seq<string>) {
    |texts| == |elements| && forall i | 0 <= i < |texts| :: texts[i] != "" && Spells(texts[i], elements[i])
  }

  ghost predicate IsText(s: string, id: TrackId, texts: seq<string>, name: string) {
    texts != [] && SpellsAll(texts, id.namespace) && name != "" && Spells(name, id.name) &&
    s == WithHyphens(texts) + "--" + name
  }

  lemma {:induction false} SpellingHasNoHyphen(ps: seq<Piece>)
    requires AllValid(ps)
    ensures '-' !in Text(ps)
  {
    if ps != [] {
      SpellingHasNoHyphen(ps[1..]);
      assert ps[0].Valid();
    }
  }

  lemma NoHyphen(text: string, element: string)
    requires Spells(text, element)
    ensures '-' !in text
  {
    hide Text, Values;
    var ps :| Spelled(text, element, ps);
    SpellingHasNoHyphen(ps);
  }

  lemma {:induction false} ElementsRead(texts: seq<string>, elements: seq<string>)
    requires texts != [] && SpellsAll(texts, elements)
    ensures Elements(WithHyphens(texts)) == Some(elements)
    decreases |texts|
  {
    hide Unescape, Elements, Hyphen, Spells;
    var s, first := WithHyphens(texts), texts[0];
    ElementsStep(s);
    NoHyphen(first, elements[0]);
    UnescapesExactly(first, elements[0]);
    if |texts| == 1 {
      HyphenIs(s, |first|);
      assert s[..|first|] == first && elements == [elements[0]];
    } else {
      var rest := WithHyphens(texts[1..]);
      assert s == first + "-" + rest;
      HyphenIs(s, |first|);
      assert s[..|first|] == first && s[|first| + 1..] == rest;
      ElementsRead(texts[1..], elements[1..]);
      assert elements == [elements[0]] + elements[1..];
    }
  }

  lemma {:induction false} ElementsWere(s: string) returns (texts: seq<string>)
    requires Elements(s).Some?
    ensures texts != [] && SpellsAll(texts, Elements(s).value) && s == WithHyphens(texts)
    decreases |s|
  {
    hide Unescape, Spells, Elements, SpellsAll;
    ElementsStep(s);
    var h := Hyphen(s);
    var first := s[..h];
    var element := Unescape(first).value;
    UnescapesExactly(first, element);
    texts := [first];
    OneSpelled(first, element, [], []);
    if h < |s| {
      var rest := s[h + 1..];
      var more := ElementsWere(rest);
      assert s == first + "-" + rest;
      OneSpelled(first, element, more, Elements(rest).value);
      texts := [first] + more;
      assert texts[1..] == more;
    } else {
      assert s == first;
      assert [first] + [] == [first] && [element] + [] == [element];
    }
  }

  lemma OneSpelled(text: string, element: string, texts: seq<string>, elements: seq<string>)
    requires text != "" && Spells(text, element)
    ensures SpellsAll([text], [element])
    ensures SpellsAll(texts, elements) ==> SpellsAll([text] + texts, [element] + elements)
  {
    hide Spells;
  }

  /** No double hyphen, and none at either end. */
  lemma {:induction false} HyphensApart(texts: seq<string>, elements: seq<string>)
    requires texts != [] && SpellsAll(texts, elements)
    ensures var s := WithHyphens(texts);
      s != "" && s[0] != '-' && s[|s| - 1] != '-' && forall i: nat :: !IsDelimiter(s, i)
    decreases |texts|
  {
    hide Spells;
    NoHyphen(texts[0], elements[0]);
    var a := texts[0];
    assert forall i | 0 <= i < |a| :: a[i] in a;
    if |texts| > 1 {
      HyphensApart(texts[1..], elements[1..]);
      var b := WithHyphens(texts[1..]);
      var s := a + "-" + b;
      forall i: nat
        ensures !IsDelimiter(s, i)
      {
        if i > |a| && i + 1 < |s| {
          assert !IsDelimiter(b, i - |a| - 1);
        }
      }
    }
  }

  /** A text decodes to an identifier exactly when it spells its namespace and its name. */
  lemma DecodesExactly(s: string, id: TrackId)
    ensures Decode(s) == Some(id) <==> exists texts, name :: IsText(s, id, texts, name)
  {
    hide Unescape, Elements, Spells, IsText;
    if Decode(s) == Some(id) {
      TextWas(s);
    }
    if texts, name :| IsText(s, id, texts, name) {
      TextRead(s, id, texts, name);
    }
  }

  lemma TextWas(s: string)
    requires Decode(s).Some?
    ensures exists texts, name :: IsText(s, Decode(s).value, texts, name)
  {
    hide Unescape, Elements, Spells;
    var d := Delimiter(s, 0);
    var texts := ElementsWere(s[..d]);
    var name := s[d + 2..];
    UnescapesExactly(name, Unescape(name).value);
    assert s == s[..d] + "--" + name;
    assert IsText(s, Decode(s).value, texts, name);
  }

  lemma TextRead(s: string, id: TrackId, texts: seq<string>, name: string)
    requires IsText(s, id, texts, name)
    ensures Decode(s) == Some(id)
  {
    hide Unescape, Elements, Spells;
    var a := WithHyphens(texts);
    ElementsRead(texts, id.namespace);
    UnescapesExactly(name, id.name);
    HyphensApart(texts, id.namespace);
    NoHyphen(name, id.name);
    forall i: nat | i != |a|
      ensures !IsDelimiter(s, i)
    {
      if i + 1 < |a| {
        assert !IsDelimiter(a, i);
      }
      if i > |a| + 1 && i < |s| {
        assert s[i] in name;
      }
    }
    assert IsDelimiter(s, |a|);
    assert Delimiter(s, 0) == |a|;
    assert Delimiter(s, |a| + 2) == |s|;
    assert s[..|a|] == a && s[|a| + 2..] == name;
  }
}
