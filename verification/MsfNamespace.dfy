/**
 * The namespace-and-name string of an MSF URL (section 11.1.2 of
 * draft-ietf-moq-msf-01): elements joined by single hyphens, the track name
 * after a double one, every other byte escaped. Text is a string of bytes.
 */
module MsfNamespace {
  import opened Bytes

  datatype TrackId = TrackId(namespace: seq<string>, name: string)

  predicate IsBytes(s: string) {
    forall i | 0 <= i < |s| :: s[i] as int < 256
  }

  predicate Unreserved(c: char) {
    'a' <= c <= 'z' || 'A' <= c <= 'Z' || '0' <= c <= '9' || c == '_'
  }

  // ---- escaping

  function LowerHex(d: nat): (c: char)
    requires d < 16
    ensures '0' <= c <= '9' || 'a' <= c <= 'f'
  {
    if d < 10 then '0' + d as char else 'a' + (d - 10) as char
  }

  function DigitOf(c: char): Option<nat> {
    if c as int < 256 then HexDigit(c as int) else None
  }

  function EscapeOne(c: char): string
    requires c as int < 256
  {
    if Unreserved(c) then [c] else ['.', LowerHex(c as int / 16), LowerHex(c as int % 16)]
  }

  function Escape(s: string): string
    requires IsBytes(s)
    decreases |s|
  {
    if s == "" then "" else EscapeOne(s[0]) + Escape(s[1..])
  }

  function Unescape(s: string): Option<string>
    decreases |s|
  {
    if s == "" then Some("")
    else if s[0] == '.' then
      if |s| < 3 then None
      else
        var high, low := DigitOf(s[1]), DigitOf(s[2]);
        if high.None? || low.None? || high.value >= 16 || low.value >= 16 then None
        else Push((high.value * 16 + low.value) as char, Unescape(s[3..]))
    else if Unreserved(s[0]) then Push(s[0], Unescape(s[1..]))
    else None
  }

  function Push(c: char, r: Option<string>): Option<string> {
    if r.None? then None else Some([c] + r.value)
  }

  lemma UnescapeOne(c: char, rest: string)
    requires c as int < 256
    ensures Unescape(EscapeOne(c) + rest) == Push(c, Unescape(rest))
  {
    var s := EscapeOne(c) + rest;
    if Unreserved(c) {
      assert s[1..] == rest;
    } else {
      assert s[3..] == rest;
      assert DigitOf(s[1]) == Some(c as int / 16) && DigitOf(s[2]) == Some(c as int % 16);
    }
  }

  lemma {:induction false} EscapeRoundTrip(s: string)
    requires IsBytes(s)
    ensures Unescape(Escape(s)) == Some(s)
    decreases |s|
  {
    hide Unescape;
    if s == "" {
      NothingEscaped();
    } else {
      EscapeRoundTrip(s[1..]);
      UnescapeOne(s[0], Escape(s[1..]));
      assert [s[0]] + s[1..] == s;
    }
  }

  lemma NothingEscaped()
    ensures Unescape("") == Some("")
  {
  }

  /** Escaped text has no hyphen, and is empty only for nothing. */
  lemma {:induction false} EscapedIsPlain(s: string)
    requires IsBytes(s)
    ensures '-' !in Escape(s) && '&' !in Escape(s) && '#' !in Escape(s)
    ensures Escape(s) == "" <==> s == ""
    decreases |s|
  {
    if s != "" {
      EscapedIsPlain(s[1..]);
    }
  }

  // ---- the whole identifier

  predicate Encodable(id: TrackId) {
    id.namespace != [] && id.name != "" && forall e | e in id.namespace :: e != ""
  }

  predicate OfBytes(id: TrackId) {
    IsBytes(id.name) && forall e | e in id.namespace :: IsBytes(e)
  }

  function Joined(elements: seq<string>): string
    requires forall e | e in elements :: IsBytes(e)
    decreases |elements|
  {
    if elements == [] then ""
    else if |elements| == 1 then Escape(elements[0])
    else Escape(elements[0]) + "-" + Joined(elements[1..])
  }

  /** `encode_namespace_name`, None for an exception. */
  function Encode(id: TrackId): Option<string>
    requires OfBytes(id)
  {
    if !Encodable(id) then None else Some(Joined(id.namespace) + "--" + Escape(id.name))
  }

  predicate IsDelimiter(s: string, i: nat) {
    i + 1 < |s| && s[i] == '-' && s[i + 1] == '-'
  }

  /** The first double hyphen from `from` on, or the length. */
  function Delimiter(s: string, from: nat): (r: nat)
    requires from <= |s|
    ensures from <= r <= |s| && (r < |s| ==> IsDelimiter(s, r)) && forall i | from <= i < r :: !IsDelimiter(s, i)
    decreases |s| - from
  {
    if from == |s| || IsDelimiter(s, from) then from else Delimiter(s, from + 1)
  }

  /** The first hyphen, or the length. */
  function Hyphen(s: string): (r: nat)
    ensures r <= |s| && (r < |s| ==> s[r] == '-') && forall i | 0 <= i < r :: s[i] != '-'
    decreases |s|
  {
    if s == "" || s[0] == '-' then 0 else 1 + Hyphen(s[1..])
  }

  /** The elements of a namespace text; an empty one is an error. */
  function Elements(s: string): Option<seq<string>>
    decreases |s|
  {
    var h := Hyphen(s);
    if h == 0 then None
    else
      var first := Unescape(s[..h]);
      if first.None? then None
      else if h == |s| then Some([first.value])
      else
        var rest := Elements(s[h + 1..]);
        if rest.None? then None else Some([first.value] + rest.value)
  }

  /** `decode_namespace_name`, None for an exception. */
  function Decode(s: string): Option<TrackId> {
    var d := Delimiter(s, 0);
    if d == |s| || Delimiter(s, d + 2) < |s| then None
    else if d == 0 || d + 2 == |s| then None
    else
      var elements, name := Elements(s[..d]), Unescape(s[d + 2..]);
      if elements.None? || name.None? then None else Some(TrackId(elements.value, name.value))
  }

  // ---- round trip

  lemma HyphenIs(s: string, r: nat)
    requires r <= |s| && (r < |s| ==> s[r] == '-') && forall i | 0 <= i < r :: s[i] != '-'
    ensures Hyphen(s) == r
  {
    assert Hyphen(s) < |s| ==> s[Hyphen(s)] == '-';
    assert r < |s| ==> s[r] == '-';
  }

  function Gathered(done: seq<string>, r: Option<seq<string>>): Option<seq<string>> {
    if r.None? then None else Some(done + r.value)
  }

  lemma ElementsStep(s: string)
    ensures var h := Hyphen(s);
      (h == 0 || Unescape(s[..h]).None? ==> Elements(s).None?) &&
      (h > 0 && Unescape(s[..h]).Some? ==>
         Elements(s) == if h == |s| then Some([Unescape(s[..h]).value])
                        else Gathered([Unescape(s[..h]).value], Elements(s[h + 1..])))
  {
    hide Unescape;
  }

  lemma {:induction false} ElementsRoundTrip(elements: seq<string>)
    requires elements != [] && forall e | e in elements :: IsBytes(e) && e != ""
    ensures Elements(Joined(elements)) == Some(elements)
    decreases |elements|
  {
    hide Escape, Unescape, Elements, Hyphen;
    ElementsStep(Joined(elements));
    var first := Escape(elements[0]);
    EscapedIsPlain(elements[0]);
    EscapeRoundTrip(elements[0]);
    if |elements| == 1 {
      HyphenIs(first, |first|);
      assert first[..|first|] == first;
      assert [elements[0]] == elements;
    } else {
      var s := first + "-" + Joined(elements[1..]);
      HyphenIs(s, |first|);
      assert s[..|first|] == first && s[|first| + 1..] == Joined(elements[1..]);
      ElementsRoundTrip(elements[1..]);
      assert [elements[0]] + elements[1..] == elements;
    }
  }

  /** Joined text holds no double hyphen and no hyphen at either end. */
  lemma {:induction false} JoinedIsPlain(elements: seq<string>)
    requires elements != [] && forall e | e in elements :: IsBytes(e) && e != ""
    ensures var s := Joined(elements);
      s != "" && s[0] != '-' && s[|s| - 1] != '-' && '&' !in s && '#' !in s && forall i: nat :: !IsDelimiter(s, i)
    decreases |elements|
  {
    hide Escape;
    EscapedIsPlain(elements[0]);
    if |elements| > 1 {
      JoinedIsPlain(elements[1..]);
      var a, b := Escape(elements[0]), Joined(elements[1..]);
      var s := a + "-" + b;
      forall i: nat
        ensures !IsDelimiter(s, i)
      {
        if i > |a| && i + 1 < |s| {
          assert !IsDelimiter(b, i - |a| - 1);
        }
      }
    }
  }

  /** Decoding inverts encoding for every identifier whose elements are not empty. */
  lemma RoundTrip(id: TrackId)
    requires OfBytes(id) && Encodable(id)
    ensures Encode(id).Some? && Decode(Encode(id).value) == Some(id)
  {
    hide Escape, Unescape, Joined;
    var a, b := Joined(id.namespace), Escape(id.name);
    var s := a + "--" + b;
    JoinedIsPlain(id.namespace);
    EscapedIsPlain(id.name);
    ElementsRoundTrip(id.namespace);
    EscapeRoundTrip(id.name);
    forall i: nat | i != |a|
      ensures !IsDelimiter(s, i)
    {
      if i + 1 < |a| {
        assert !IsDelimiter(a, i);
      }
    }
    assert IsDelimiter(s, |a|);
    assert Delimiter(s, 0) == |a|;
    assert Delimiter(s, |a| + 2) == |s|;
    assert s[..|a|] == a && s[|a| + 2..] == b;
  }

  /** Different identifiers never share an encoding. */
  lemma Injective(a: TrackId, b: TrackId)
    requires OfBytes(a) && OfBytes(b) && Encode(a).Some? && Encode(a) == Encode(b)
    ensures a == b
  {
    RoundTrip(a);
    RoundTrip(b);
  }

  // ---- the loops

  method AppendEscaped(out0: string, element: string) returns (out: string)
    requires IsBytes(element)
    ensures out == out0 + Escape(element)
  {
    out := out0;
    assert element[0..] == element;
    for i := 0 to |element|
      invariant out + Escape(element[i..]) == out0 + Escape(element)
    {
      assert element[i..][1..] == element[i + 1..];
      var c := element[i];
      assert c as int < 256;
      assert out + (EscapeOne(c) + Escape(element[i + 1..])) == out + EscapeOne(c) + Escape(element[i + 1..]);
      if Unreserved(c) {
        out := out + [c];
      } else {
        var escaped := out + ['.'];
        escaped := escaped + [LowerHex(c as int / 16)];
        escaped := escaped + [LowerHex(c as int % 16)];
        assert escaped == out + EscapeOne(c);
        out := escaped;
      }
    }
    assert element[|element|..] == "";
  }

  /** `encode_namespace_name`. */
  method EncodeNamespaceName(id: TrackId) returns (r: Option<string>)
    requires OfBytes(id)
    ensures r == Encode(id)
  {
    hide Escape, Joined, Remaining;
    if id.namespace == [] || id.name == "" {
      return None;
    }
    var out := "";
    RemainingEnds(id.namespace);
    for i := 0 to |id.namespace|
      invariant forall k | 0 <= k < i :: id.namespace[k] != ""
      invariant out + Remaining(id.namespace, i) == Joined(id.namespace)
    {
      if id.namespace[i] == "" {
        assert id.namespace[i] in id.namespace;
        return None;
      }
      RemainingStep(id.namespace, i);
      ghost var before := out;
      if i != 0 {
        out := out + "-";
      }
      out := AppendEscaped(out, id.namespace[i]);
      assert out + Remaining(id.namespace, i + 1) == before + Remaining(id.namespace, i);
    }
    out := AppendEscaped(out + "--", id.name);
    return Some(out);
  }

  lemma RemainingEnds(elements: seq<string>)
    requires elements != [] && forall e | e in elements :: IsBytes(e)
    ensures "" + Remaining(elements, 0) == Joined(elements)
    ensures forall out: string :: out + Remaining(elements, |elements|) == out
  {
    hide Escape;
    assert elements[0..] == elements;
  }

  /** What the element loop still has to append before element `i`. */
  function Remaining(elements: seq<string>, i: nat): string
    requires i <= |elements| && forall e | e in elements :: IsBytes(e)
  {
    if i == |elements| then "" else (if i == 0 then "" else "-") + Joined(elements[i..])
  }

  lemma RemainingStep(elements: seq<string>, i: nat)
    requires i < |elements| && forall e | e in elements :: IsBytes(e)
    ensures Remaining(elements, i) ==
      (if i == 0 then "" else "-") + Escape(elements[i]) + Remaining(elements, i + 1)
  {
    hide Escape;
    assert elements[i..][1..] == elements[i + 1..];
  }

  lemma AfterPushed(out: string, c: char, r: Option<string>)
    ensures Appended(out, Push(c, r)) == Appended(out + [c], r)
  {
    if r.Some? {
      assert out + ([c] + r.value) == out + [c] + r.value;
    }
  }

  function Appended(out: string, r: Option<string>): Option<string> {
    if r.None? then None else Some(out + r.value)
  }

  /** `decode_element`. */
  method DecodeElement(element: string) returns (r: Option<string>)
    ensures r == Unescape(element)
  {
    var out := "";
    var i := 0;
    assert element[0..] == element;
    assert Unescape(element).Some? ==> "" + Unescape(element).value == Unescape(element).value;
    while i < |element|
      invariant i <= |element| && Unescape(element) == Appended(out, Unescape(element[i..]))
    {
      var c, rest := element[i], element[i..];
      if c == '.' {
        if i + 2 >= |element| {
          return None;
        }
        var high, low := DigitOf(element[i + 1]), DigitOf(element[i + 2]);
        assert rest[1] == element[i + 1] && rest[2] == element[i + 2];
        if high.None? || low.None? {
          return None;
        }
        assert rest[3..] == element[i + 3..];
        AfterPushed(out, (high.value * 16 + low.value) as char, Unescape(element[i + 3..]));
        out := out + [(high.value * 16 + low.value) as char];
        i := i + 3;
        continue;
      }
      if !Unreserved(c) {
        return None;
      }
      assert rest[1..] == element[i + 1..];
      AfterPushed(out, c, Unescape(element[i + 1..]));
      out := out + [c];
      i := i + 1;
    }
    assert element[i..] == "" && out + "" == out;
    NothingEscaped();
    return Some(out);
  }

  /** `decode_namespace_name`. */
  method DecodeNamespaceName(text: string) returns (r: Option<TrackId>)
    ensures r == Decode(text)
  {
    hide Unescape, Elements;
    var found, delimiter, i: nat := false, |text|, 0;
    while i + 1 < |text|
      invariant i <= |text|
      invariant !found ==> delimiter == |text| && Delimiter(text, 0) == Delimiter(text, i)
      invariant found ==> Delimiter(text, 0) == delimiter < |text| && delimiter + 2 <= i
      invariant found ==> Delimiter(text, delimiter + 2) == Delimiter(text, i)
    {
      if !(text[i] == '-' && text[i + 1] == '-') {
        i := i + 1;
        continue;
      }
      if found {
        return None;
      }
      found, delimiter := true, i;
      i := i + 2;
    }
    assert Delimiter(text, i) == |text|;
    if !found || delimiter == 0 || delimiter + 2 == |text| {
      return None;
    }
    var elements := DecodeElements(text[..delimiter]);
    if elements.None? {
      return None;
    }
    var name := DecodeElement(text[delimiter + 2..]);
    if name.None? {
      return None;
    }
    return Some(TrackId(elements.value, name.value));
  }

  lemma GatheredMore(tuple: seq<string>, element: string, r: Option<seq<string>>)
    ensures Gathered(tuple, Gathered([element], r)) == Gathered(tuple + [element], r)
  {
    if r.Some? {
      assert tuple + ([element] + r.value) == tuple + [element] + r.value;
    }
  }

  /** The loop over the hyphens of the namespace text. */
  method DecodeElements(text: string) returns (r: Option<seq<string>>)
    ensures r == Elements(text)
  {
    hide Unescape, Elements, Hyphen;
    var tuple: seq<string> := [];
    var start := 0;
    assert text[0..] == text;
    assert Gathered([], Elements(text)) == Elements(text) by {
      assert Elements(text).Some? ==> [] + Elements(text).value == Elements(text).value;
    }
    while true
      invariant start <= |text| && Elements(text) == Gathered(tuple, Elements(text[start..]))
      decreases |text| - start
    {
      var rest := text[start..];
      var h := Hyphen(rest);
      ElementsStep(rest);
      if h == 0 {
        return None;
      }
      var element := DecodeElement(rest[..h]);
      if element.None? {
        return None;
      }
      if h == |rest| {
        return Some(tuple + [element.value]);
      }
      DropOfDrop(text, start, h + 1);
      GatheredMore(tuple, element.value, Elements(text[start + h + 1..]));
      tuple := tuple + [element.value];
      start := start + h + 1;
    }
  }
}
