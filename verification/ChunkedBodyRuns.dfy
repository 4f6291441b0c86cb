/**
 * What the chunked decoder gives does not depend on how the bytes arrive, as
 * long as lines stay under the limit; and a body encoded by section 7.1 of
 * RFC 9112 decodes to its chunks.
 */
module ChunkedBodyRuns {
  import opened Bytes
  import opened ChunkedBody

  /** What a caller sees; bytes left over after the end are not looked at again. */
  ghost predicate Alike(a: Decoder, b: Decoder) {
    a.state == b.state && a.decoded == b.decoded && a.error == b.error && (!a.Ended() ==> a == b)
  }

  predicate OnLine(d: Decoder) {
    d.state.SizeLine? || d.state.TrailerLine?
  }

  /** Every line the decoder takes while draining is shorter than the limit. */
  ghost predicate ShortLines(d: Decoder, limit: nat)
    decreases |d.input|, if d.Ended() then 0 else if d.state.Data? then 2 else 1
  {
    d.Ended() ||
    var next := Turn(d, limit);
    next.None? ||
    ((OnLine(d) && LineEnd(d.input) < |d.input| ==> LineEnd(d.input) < MaxLine) && ShortLines(next.value, limit))
  }

  predicate TooLong(d: Decoder) {
    d.state.Failed? && d.error == Some(LineTooLong)
  }

  // ---- one turn and more bytes

  lemma TurnWithMore(d: Decoder, more: seq<Byte>, limit: nat)
    requires !d.Ended() && Turn(d, limit).Some?
    ensures var next := Turn(d, limit).value;
      if OnLine(d) && LineEnd(d.input) == |d.input| then
        TooLong(next) && next.decoded == d.decoded &&
        (LineEnd(d.input + more) == |d.input + more| ==>
           Turn(d.With(more), limit) == Some(Fail(d.With(more), LineTooLong))) &&
        (LineEnd(d.input + more) < |d.input + more| ==> LineEnd(d.input + more) >= MaxLine)
      else Turn(d.With(more), limit) == Some(next.With(more))
  {
    hide ChunkSize;
    var all := d.input + more;
    if OnLine(d) {
      LineEndWithMore(d.input, more);
      var end := LineEnd(d.input);
      if end < |d.input| {
        assert all[end + 2..] == d.input[end + 2..] + more && all[..end] == d.input[..end];
      }
    } else if d.state.Data? {
      assert all[d.chunk..] == d.input[d.chunk..] + more && all[..d.chunk] == d.input[..d.chunk];
    } else {
      assert all[2..] == d.input[2..] + more;
    }
  }

  lemma WithNothing(d: Decoder)
    ensures d.With([]) == d
  {
    assert d.input + [] == d.input;
  }

  /** Draining first and then adding bytes is the same as adding them at once. */
  lemma {:induction false} DrainThenMore(d: Decoder, more: seq<Byte>, limit: nat)
    requires !d.Ended() && ShortLines(d.With(more), limit)
    ensures Alike(Drain(d.With(more), limit), Append(Drain(d, limit), more, limit))
    ensures ShortLines(d, limit)
    ensures !Drain(d, limit).Ended() ==> ShortLines(Drain(d, limit).With(more), limit)
    decreases |d.input|, if d.state.Data? then 2 else 1
  {
    hide Turn, LineEnd;
    var turn := Turn(d, limit);
    if turn.Some? {
      TurnWithMore(d, more, limit);
      var next := turn.value;
      if !next.Ended() {
        ShortHere(d, next, more, limit);
        DrainThenMore(next, more, limit);
      } else {
        EndsHere(d, next, more, limit);
      }
    }
  }

  lemma ShortHere(d: Decoder, next: Decoder, more: seq<Byte>, limit: nat)
    requires !d.Ended() && Turn(d, limit) == Some(next) && !next.Ended() && ShortLines(d.With(more), limit)
    ensures !(OnLine(d) && LineEnd(d.input) == |d.input|)
    ensures Turn(d.With(more), limit) == Some(next.With(more)) && ShortLines(next.With(more), limit)
    ensures OnLine(d) && LineEnd(d.input) < |d.input| ==> LineEnd(d.input) < MaxLine
  {
    hide ChunkSize, TakeLine;
    TurnWithMore(d, more, limit);
    LineEndWithMore(d.input, more);
  }

  lemma EndsHere(d: Decoder, next: Decoder, more: seq<Byte>, limit: nat)
    requires !d.Ended() && Turn(d, limit) == Some(next) && next.Ended() && ShortLines(d.With(more), limit)
    ensures Alike(Drain(d.With(more), limit), next) && ShortLines(d, limit)
  {
    hide ChunkSize;
    TurnWithMore(d, more, limit);
    LineEndWithMore(d.input, more);
  }

  // ---- any split

  lemma AppendAlike(a: Decoder, b: Decoder, bytes: seq<Byte>, limit: nat)
    requires Alike(a, b)
    ensures Alike(Append(a, bytes, limit), Append(b, bytes, limit))
  {
    hide Drain;
  }

  /** Any split of the bytes into appends ends as one append of all of them. */
  lemma {:induction false} SplitsAlike(d: Decoder, pieces: seq<seq<Byte>>, limit: nat)
    requires !d.Ended() && Drain(d, limit) == d && ShortLines(d.With(Joined(pieces)), limit)
    ensures Alike(AppendAll(d, pieces, limit), Append(d, Joined(pieces), limit))
    decreases |pieces|
  {
    hide Drain, ShortLines, Alike;
    if pieces == [] {
      WithNothing(d);
      AlikeSelf(d);
    } else {
      var init, last := pieces[..|pieces| - 1], pieces[|pieces| - 1];
      assert d.With(Joined(pieces)) == d.With(Joined(init)).With(last) by {
        assert d.input + (Joined(init) + last) == d.input + Joined(init) + last;
      }
      DrainThenMore(d.With(Joined(init)), last, limit);
      SplitsAlike(d, init, limit);
      AppendAlike(AppendAll(d, init, limit), Append(d, Joined(init), limit), last, limit);
      AlikeTransitive(AppendAll(d, pieces, limit), Append(Append(d, Joined(init), limit), last, limit),
                      Append(d, Joined(pieces), limit));
    }
  }

  lemma AlikeSelf(d: Decoder)
    ensures Alike(d, d)
  {
  }

  lemma AlikeTransitive(a: Decoder, b: Decoder, c: Decoder)
    requires Alike(a, b) && Alike(c, b)
    ensures Alike(a, c)
  {
  }

  // ---- a long line can be broken

  lemma TurnOnPrefix(d: Decoder, next: Decoder, k: nat, limit: nat)
    requires !d.Ended() && Turn(d, limit) == Some(next) && !next.Ended() && k <= |next.input|
    ensures var whole := |d.input| - |next.input| + k;
      whole <= |d.input| && Turn(d.(input := d.input[..whole]), limit) == Some(next.(input := next.input[..k]))
  {
    hide ChunkSize, LineEnd;
    var c := |d.input| - |next.input|;
    if OnLine(d) {
      LineOfPrefix(d.input, c + k);
    } else {
      var start := d.input[..c + k];
      assert start[c..] == d.input[c..][..k] && start[..c] == d.input[..c];
    }
  }

  /** A line that is whole within the first bytes ends where it ended. */
  lemma LineOfPrefix(s: seq<Byte>, k: nat)
    requires LineEnd(s) + 2 <= k <= |s|
    ensures var end := LineEnd(s);
      LineEnd(s[..k]) == end && s[..k][..end] == s[..end] && s[..k][end + 2..] == s[end + 2..][..k - end - 2]
  {
    var start, end := s[..k], LineEnd(s);
    assert forall i: nat | i + 1 < |start| :: IsCrLf(start, i) <==> IsCrLf(s, i);
    LineEndIs(start, end);
  }

  /** What is decoded when the first line of the limit or more is taken. */
  ghost function BeforeLongLine(d: Decoder, limit: nat): seq<Byte>
    requires !ShortLines(d, limit)
    decreases |d.input|, if d.Ended() then 0 else if d.state.Data? then 2 else 1
  {
    if OnLine(d) && MaxLine <= LineEnd(d.input) < |d.input| then d.decoded else BeforeLongLine(Turn(d, limit).value, limit)
  }

  lemma {:induction false} LongLineBreaks(d: Decoder, limit: nat) returns (k: nat)
    requires !ShortLines(d, limit)
    ensures k <= |d.input| && TooLong(Drain(d.(input := d.input[..k]), limit))
    ensures Drain(d.(input := d.input[..k]), limit).decoded == BeforeLongLine(d, limit)
    decreases |d.input|, if d.Ended() then 0 else if d.state.Data? then 2 else 1
  {
    hide Turn, LineEnd, Drain;
    var next := Turn(d, limit).value;
    if OnLine(d) && LineEnd(d.input) < |d.input| && LineEnd(d.input) >= MaxLine {
      k := LineEnd(d.input) + 1;
      CutLine(d, k, limit);
    } else {
      var rest := LongLineBreaks(next, limit);
      TurnOnPrefix(d, next, rest, limit);
      k := |d.input| - |next.input| + rest;
      DrainTurn(d.(input := d.input[..k]), next.(input := next.input[..rest]), limit, false);
    }
  }

  lemma CutLine(d: Decoder, k: nat, limit: nat)
    requires OnLine(d) && MaxLine <= LineEnd(d.input) < |d.input| && k == LineEnd(d.input) + 1
    ensures TooLong(Drain(d.(input := d.input[..k]), limit)) && Drain(d.(input := d.input[..k]), limit).decoded == d.decoded
  {
    var start := d.input[..k];
    assert forall i: nat | i + 1 < |start| :: IsCrLf(start, i) <==> IsCrLf(d.input, i);
    LineEndIs(start, |start|);
    assert Turn(d.(input := start), limit) == Some(Fail(d.(input := start), LineTooLong));
  }

  /** Cutting a long line in two fails on it, with what was decoded before it. */
  lemma LongLineSplits(w: seq<Byte>, limit: nat) returns (pieces: seq<seq<Byte>>)
    requires !ShortLines(Fresh.With(w), limit)
    ensures Joined(pieces) == w && TooLong(AppendAll(Fresh, pieces, limit))
    ensures AppendAll(Fresh, pieces, limit).decoded == BeforeLongLine(Fresh.With(w), limit)
  {
    hide Drain, ShortLines, BeforeLongLine, AppendAll, Joined;
    assert [] + w == w;
    var k := LongLineBreaks(Fresh.With(w), limit);
    var a, b := w[..k], w[k..];
    assert [] + a == a && a + b == w;
    pieces := [a, b];
    TwoPieces(a, b, limit);
  }

  lemma TwoPieces(a: seq<Byte>, b: seq<Byte>, limit: nat)
    ensures Joined([a, b]) == a + b
    ensures AppendAll(Fresh, [a, b], limit) == Append(Append(Fresh, a, limit), b, limit)
  {
    hide Drain;
    assert [a, b][..1] == [a] && [a][..0] == [];
    assert Joined([]) == [] && Joined([a]) == [] + a && [] + a == a;
    assert AppendAll(Fresh, [], limit) == Fresh;
    assert AppendAll(Fresh, [a], limit) == Append(Fresh, a, limit);
  }

  // ---- a long line that costs nothing

  /** Nothing decoded is lost by adding bytes. */
  lemma {:induction false} DecodedGrows(d: Decoder, more: seq<Byte>, limit: nat)
    requires !d.Ended()
    ensures d.decoded <= Drain(d, limit).decoded <= Drain(d.With(more), limit).decoded
    decreases |d.input|, if d.state.Data? then 2 else 1
  {
    hide LineEnd, ChunkSize;
    var turn := Turn(d, limit);
    if turn.None? {
      DecodedKept(d.With(more), limit);
    } else {
      TurnWithMore(d, more, limit);
      if OnLine(d) && LineEnd(d.input) == |d.input| {
        DecodedKept(d.With(more), limit);
      } else if !turn.value.Ended() {
        DecodedGrows(turn.value, more, limit);
      }
    }
  }

  lemma {:induction false} DecodedKept(d: Decoder, limit: nat)
    ensures d.decoded <= Drain(d, limit).decoded
    decreases |d.input|, if d.Ended() then 0 else if d.state.Data? then 2 else 1
  {
    if !d.Ended() && Turn(d, limit).Some? {
      DecodedKept(Turn(d, limit).value, limit);
    }
  }

  /** Draining and adding bytes is the same as adding them at once, unless a line was too long already. */
  lemma {:induction false} DrainThenMoreUnlessLong(d: Decoder, more: seq<Byte>, limit: nat)
    requires !d.Ended() && !TooLong(Drain(d, limit))
    ensures Alike(Drain(d.With(more), limit), Append(Drain(d, limit), more, limit))
    decreases |d.input|, if d.state.Data? then 2 else 1
  {
    hide LineEnd, ChunkSize;
    var turn := Turn(d, limit);
    if turn.Some? {
      TurnWithMore(d, more, limit);
      if !turn.value.Ended() {
        DrainThenMoreUnlessLong(turn.value, more, limit);
      }
    }
  }

  /** A line too long for a part of the input costs nothing when nothing is decoded after the first long line. */
  lemma {:induction false} LongPartDecodes(d: Decoder, more: seq<Byte>, limit: nat)
    requires !d.Ended() && TooLong(Drain(d, limit)) && !ShortLines(d.With(more), limit)
    requires BeforeLongLine(d.With(more), limit) == Drain(d.With(more), limit).decoded
    ensures Drain(d, limit).decoded == Drain(d.With(more), limit).decoded
    decreases |d.input|, if d.state.Data? then 2 else 1
  {
    hide LineEnd, ChunkSize, IsCrLf, LineTurn;
    var next := Turn(d, limit).value;
    TurnWithMore(d, more, limit);
    DecodedGrows(d, more, limit);
    var long := OnLine(d) && MaxLine <= LineEnd(d.With(more).input) < |d.With(more).input|;
    if !(OnLine(d) && LineEnd(d.input) == |d.input|) && !long && !next.Ended() {
      assert Turn(d.With(more), limit) == Some(next.With(more));
      LongPartDecodes(next, more, limit);
    }
  }

  /** Short lines only, or a body that fails on a long line anyway, with all that it decodes ahead of its first long line. */
  ghost predicate CutsAreHarmless(w: seq<Byte>, limit: nat) {
    ShortLines(Fresh.With(w), limit) ||
    (TooLong(Append(Fresh, w, limit)) && Append(Fresh, w, limit).decoded == BeforeLongLine(Fresh.With(w), limit))
  }

  /** Where a split of a part of the body leaves the decoder. */
  lemma {:induction false} LongSplitsAlike(pieces: seq<seq<Byte>>, rest: seq<Byte>, limit: nat)
    requires var w := Joined(pieces) + rest;
      !ShortLines(Fresh.With(w), limit) && CutsAreHarmless(w, limit)
    ensures var d, whole := AppendAll(Fresh, pieces, limit), Append(Fresh, Joined(pieces) + rest, limit);
      Alike(d, Append(Fresh, Joined(pieces), limit)) || (TooLong(d) && d.decoded == whole.decoded)
    decreases |pieces|
  {
    hide Drain, ShortLines, Alike, BeforeLongLine;
    if pieces == [] {
      WithNothing(Fresh);
      FreshWaits(limit);
      AlikeSelf(Fresh);
    } else {
      var init, last := pieces[..|pieces| - 1], pieces[|pieces| - 1];
      var u, w := Joined(init), Joined(pieces) + rest;
      assert w == u + (last + rest);
      LongSplitsAlike(init, last + rest, limit);
      var before, part := AppendAll(Fresh, init, limit), Append(Fresh, u, limit);
      if Alike(before, part) {
        AppendAlike(before, part, last, limit);
        if TooLong(part) {
          assert Fresh.With(u).With(last + rest) == Fresh.With(w);
          LongPartDecodes(Fresh.With(u), last + rest, limit);
          LongStays(before, part, last, limit);
        } else {
          assert Fresh.With(u).With(last) == Fresh.With(Joined(pieces));
          DrainThenMoreUnlessLong(Fresh.With(u), last, limit);
          AlikeTransitive(AppendAll(Fresh, pieces, limit), Append(part, last, limit), Append(Fresh, Joined(pieces), limit));
        }
      }
    }
  }

  lemma LongStays(d: Decoder, part: Decoder, bytes: seq<Byte>, limit: nat)
    requires Alike(d, part) && TooLong(part)
    ensures TooLong(Append(d, bytes, limit)) && Append(d, bytes, limit).decoded == part.decoded
  {
    hide Drain;
  }

  lemma LongAlike(d: Decoder, whole: Decoder)
    requires TooLong(d) && TooLong(whole) && d.decoded == whole.decoded
    ensures Alike(d, whole)
  {
  }

  lemma LongDiffers(d: Decoder, whole: Decoder)
    requires TooLong(d) && (!TooLong(whole) || d.decoded != whole.decoded)
    ensures !Alike(d, whole)
  {
  }

  lemma HarmlessSplit(w: seq<Byte>, pieces: seq<seq<Byte>>, limit: nat)
    requires CutsAreHarmless(w, limit) && Joined(pieces) == w
    ensures Alike(AppendAll(Fresh, pieces, limit), Append(Fresh, w, limit))
  {
    hide Drain, ShortLines, Alike, BeforeLongLine;
    FreshWaits(limit);
    if ShortLines(Fresh.With(w), limit) {
      SplitsAlike(Fresh, pieces, limit);
    } else {
      assert Joined(pieces) + [] == w;
      LongSplitsAlike(pieces, [], limit);
      if !Alike(AppendAll(Fresh, pieces, limit), Append(Fresh, w, limit)) {
        LongAlike(AppendAll(Fresh, pieces, limit), Append(Fresh, w, limit));
      }
    }
  }

  /**
   * The split theorem, for every body: every split gives the same result if and only if
   * every line is under 8192 bytes, or one append already fails on a long line and
   * nothing is decoded from the first such line on.
   */
  lemma SplitIndependentExactly(w: seq<Byte>, limit: nat)
    ensures (forall pieces | Joined(pieces) == w :: Alike(AppendAll(Fresh, pieces, limit), Append(Fresh, w, limit))) <==>
            CutsAreHarmless(w, limit)
  {
    hide Drain, ShortLines, Alike, BeforeLongLine, AppendAll;
    if CutsAreHarmless(w, limit) {
      forall pieces | Joined(pieces) == w
        ensures Alike(AppendAll(Fresh, pieces, limit), Append(Fresh, w, limit))
      {
        HarmlessSplit(w, pieces, limit);
      }
    } else {
      var pieces := LongLineSplits(w, limit);
      LongDiffers(AppendAll(Fresh, pieces, limit), Append(Fresh, w, limit));
      assert Joined(pieces) == w;
    }
  }

  lemma FreshWaits(limit: nat)
    ensures Drain(Fresh, limit) == Fresh && !Fresh.Ended()
  {
  }

  // ---- well-formed bodies

  predicate IsDigit(c: Byte) {
    48 <= c <= 57 || 65 <= c <= 70 || 97 <= c <= 102
  }

  function DigitOf(c: Byte): nat {
    if 48 <= c <= 57 then c - 48 else if 65 <= c <= 70 then c - 55 else if 97 <= c <= 102 then c - 87 else 0
  }

  lemma HexDigitIs(c: Byte)
    ensures HexDigit(c) == if IsDigit(c) then Some(DigitOf(c)) else None
  {
  }

  function HexValue(text: seq<Byte>): nat {
    if text == [] then 0 else HexValue(text[..|text| - 1]) * 16 + DigitOf(text[|text| - 1])
  }

  predicate IsHex(text: seq<Byte>) {
    text != [] && forall c | c in text :: IsDigit(c)
  }

  predicate NoLineEnd(s: seq<Byte>) {
    forall k: nat | k < |s| :: !IsCrLf(s, k)
  }

  /** A line is a text up to the first semicolon, if there is one, and the rest. */
  predicate Parts(line: seq<Byte>, text: seq<Byte>, extension: seq<Byte>) {
    line == text + extension && 59 !in text && (extension == [] || extension[0] == 59)
  }

  lemma {:induction false} PartsExactly(line: seq<Byte>, text: seq<Byte>, extension: seq<Byte>)
    ensures Parts(line, text, extension) <==> text == SizeText(line) && extension == line[|text|..]
    decreases |line|
  {
    if line != [] && line[0] != 59 {
      var t := SizeText(line[1..]);
      assert line == [line[0]] + line[1..];
      if text != [] && text[0] == line[0] {
        PartsExactly(line[1..], text[1..], extension);
        assert text == [text[0]] + text[1..];
        assert |text| <= |line| ==> line[|text|..] == line[1..][|text| - 1..];
        assert Parts(line, text, extension) ==> line[1..] == text[1..] + extension;
        assert Parts(line[1..], text[1..], extension) ==> line == text + extension;
      }
    }
  }

  /** A size line: any spelling of the hexadecimal number, and an optional extension. */
  ghost predicate IsSizeLine(line: seq<Byte>, size: nat) {
    NoLineEnd(line) && exists text, extension :: Parts(line, text, extension) && IsHex(text) && HexValue(text) == size
  }

  lemma SizeTextIs(line: seq<Byte>, size: nat)
    ensures IsSizeLine(line, size) <==> NoLineEnd(line) && IsHex(SizeText(line)) && HexValue(SizeText(line)) == size
  {
    hide IsHex, HexValue, NoLineEnd, Parts;
    var text := SizeText(line);
    PartsExactly(line, text, line[|text|..]);
    if text', extension :| Parts(line, text', extension) && IsHex(text') && HexValue(text') == size {
      PartsExactly(line, text', extension);
    }
  }

  datatype Chunk = Chunk(line: seq<Byte>, data: seq<Byte>)

  const CrLf: seq<Byte> := [Cr, Lf]

  function EncodeChunk(c: Chunk): seq<Byte> {
    c.line + CrLf + c.data + CrLf
  }

  function EncodeChunks(cs: seq<Chunk>): seq<Byte>
    decreases |cs|
  {
    if cs == [] then [] else EncodeChunk(cs[0]) + EncodeChunks(cs[1..])
  }

  function EncodeLines(lines: seq<seq<Byte>>): seq<Byte>
    decreases |lines|
  {
    if lines == [] then CrLf else lines[0] + CrLf + EncodeLines(lines[1..])
  }

  /** chunked-body: the chunks, the last chunk's line, the trailer section and the empty line. */
  function EncodeBody(cs: seq<Chunk>, last: seq<Byte>, trailers: seq<seq<Byte>>): seq<Byte> {
    EncodeChunks(cs) + (last + CrLf + EncodeLines(trailers))
  }

  function DataOf(cs: seq<Chunk>): seq<Byte>
    decreases |cs|
  {
    if cs == [] then [] else cs[0].data + DataOf(cs[1..])
  }

  ghost predicate WellFormed(cs: seq<Chunk>, last: seq<Byte>, trailers: seq<seq<Byte>>, limit: nat) {
    (forall c | c in cs :: IsSizeLine(c.line, |c.data|) && 0 < |c.data| <= limit) && IsSizeLine(last, 0) &&
    forall t | t in trailers :: t != [] && NoLineEnd(t)
  }

  ghost predicate AllShort(cs: seq<Chunk>, last: seq<Byte>, trailers: seq<seq<Byte>>) {
    (forall c | c in cs :: |c.line| < MaxLine) && |last| < MaxLine && forall t | t in trailers :: |t| < MaxLine
  }

  lemma {:induction false} SizeFromPrefix(text: seq<Byte>, k: nat)
    requires k <= |text| && IsHex(text) && HexValue(text) <= MaxU64
    ensures HexValue(text[..k]) <= MaxU64
    ensures SizeFrom(text, 0) == SizeFrom(text[k..], HexValue(text[..k]))
    decreases k
  {
    PrefixValue(text, k);
    if k == 0 {
      assert text[0..] == text;
    } else {
      SizeFromPrefix(text, k - 1);
      assert text[..k][..k - 1] == text[..k - 1] && text[k - 1..][1..] == text[k..];
      assert text[k - 1] in text;
      HexDigitIs(text[k - 1]);
    }
  }

  lemma {:induction false} PrefixValue(text: seq<Byte>, k: nat)
    requires k <= |text|
    ensures HexValue(text[..k]) <= HexValue(text)
    decreases |text| - k
  {
    if k < |text| {
      PrefixValue(text, k + 1);
      assert text[..k + 1][..k] == text[..k];
    } else {
      assert text[..k] == text;
    }
  }

  lemma SizeLineRead(line: seq<Byte>, size: nat, limit: nat)
    requires IsSizeLine(line, size) && size <= limit <= MaxU64
    ensures ChunkSize(line, limit) == Size(size)
  {
    hide SizeFrom, SizeText, IsSizeLine;
    SizeTextIs(line, size);
    var text := SizeText(line);
    SizeFromPrefix(text, |text|);
    assert text[|text|..] == [] && text[..|text|] == text;
    SizeFromNothing(HexValue(text));
  }

  lemma SizeFromNothing(v: nat)
    ensures SizeFrom([], v) == Size(v)
  {
  }

  lemma LineEndOf(line: seq<Byte>, rest: seq<Byte>)
    requires NoLineEnd(line)
    ensures LineEnd(line + CrLf + rest) == |line|
    ensures (line + CrLf + rest)[|line| + 2..] == rest && (line + CrLf + rest)[..|line|] == line
  {
    var s := line + CrLf + rest;
    forall k: nat | k < |line|
      ensures !IsCrLf(s, k)
    {
      assert k + 1 < |line| ==> (IsCrLf(s, k) <==> IsCrLf(line, k));
    }
    LineEndIs(s, |line|);
  }

  function At(state: State, input: seq<Byte>, decoded: seq<Byte>, chunk: nat): Decoder {
    Decoder(state, input, decoded, chunk, None)
  }

  lemma DrainTurn(d: Decoder, next: Decoder, limit: nat, short: bool)
    requires !d.Ended() && Turn(d, limit) == Some(next)
    requires short && OnLine(d) ==> LineEnd(d.input) < MaxLine || LineEnd(d.input) == |d.input|
    ensures Drain(d, limit) == Drain(next, limit)
    ensures short && ShortLines(next, limit) ==> ShortLines(d, limit)
  {
  }

  lemma LineRead(state: State, line: seq<Byte>, rest: seq<Byte>, decoded: seq<Byte>, chunk: nat, limit: nat)
    requires (state.SizeLine? || state.TrailerLine?) && NoLineEnd(line)
    ensures var d, next := At(state, line + CrLf + rest, decoded, chunk), TakeLine(At(state, rest, decoded, chunk), line, limit);
      Drain(d, limit) == Drain(next, limit) && (|line| < MaxLine && ShortLines(next, limit) ==> ShortLines(d, limit))
  {
    hide TakeLine, LineEnd;
    LineEndOf(line, rest);
    var d := At(state, line + CrLf + rest, decoded, chunk);
    DrainTurn(d, TakeLine(At(state, rest, decoded, chunk), line, limit), limit, |line| < MaxLine);
  }

  lemma ChunkRead(c: Chunk, rest: seq<Byte>, decoded: seq<Byte>, chunk: nat, limit: nat)
    requires IsSizeLine(c.line, |c.data|) && 0 < |c.data| <= limit <= MaxU64
    ensures var d, next := At(SizeLine, EncodeChunk(c) + rest, decoded, chunk), At(SizeLine, rest, decoded + c.data, |c.data|);
      Drain(d, limit) == Drain(next, limit) && (|c.line| < MaxLine && ShortLines(next, limit) ==> ShortLines(d, limit))
  {
    hide LineEnd, ChunkSize, IsHex, HexValue, Parts, Drain, ShortLines;
    var body := c.data + CrLf + rest;
    assert EncodeChunk(c) + rest == c.line + CrLf + body;
    SizeLineRead(c.line, |c.data|, limit);
    LineRead(SizeLine, c.line, body, decoded, chunk, limit);
    var data := At(Data, body, decoded, |c.data|);
    var mark := At(DataCrLf, CrLf + rest, decoded + c.data, |c.data|);
    assert body[|c.data|..] == CrLf + rest && body[..|c.data|] == c.data;
    DrainTurn(data, mark, limit, true);
    assert (CrLf + rest)[2..] == rest;
    DrainTurn(mark, At(SizeLine, rest, decoded + c.data, |c.data|), limit, true);
  }

  lemma {:induction false} TrailersRead(lines: seq<seq<Byte>>, rest: seq<Byte>, decoded: seq<Byte>, chunk: nat, limit: nat)
    requires forall t | t in lines :: t != [] && NoLineEnd(t)
    ensures var d := At(TrailerLine, EncodeLines(lines) + rest, decoded, chunk);
      Drain(d, limit) == At(Complete, rest, decoded, chunk) &&
      ((forall t | t in lines :: |t| < MaxLine) ==> ShortLines(d, limit))
    decreases |lines|
  {
    hide LineEnd, NoLineEnd;
    if lines == [] {
      assert CrLf + rest == [] + CrLf + rest;
      NothingHasNoEnd();
      LineRead(TrailerLine, [], rest, decoded, chunk, limit);
    } else {
      assert EncodeLines(lines) + rest == lines[0] + CrLf + (EncodeLines(lines[1..]) + rest);
      LineRead(TrailerLine, lines[0], EncodeLines(lines[1..]) + rest, decoded, chunk, limit);
      assert forall t | t in lines[1..] :: t in lines;
      TrailersRead(lines[1..], rest, decoded, chunk, limit);
    }
  }

  lemma NothingHasNoEnd()
    ensures NoLineEnd([])
  {
  }

  lemma {:induction false} BodyRead(cs: seq<Chunk>, last: seq<Byte>, trailers: seq<seq<Byte>>, rest: seq<Byte>,
                                    decoded: seq<Byte>, chunk: nat, limit: nat)
    requires WellFormed(cs, last, trailers, limit) && limit <= MaxU64
    ensures var d := At(SizeLine, EncodeBody(cs, last, trailers) + rest, decoded, chunk);
      Drain(d, limit) == At(Complete, rest, decoded + DataOf(cs), 0) &&
      (AllShort(cs, last, trailers) ==> ShortLines(d, limit))
    decreases |cs|
  {
    hide Drain, ShortLines, IsSizeLine, NoLineEnd, EncodeChunk, EncodeLines, LineEnd;
    if cs == [] {
      assert EncodeBody(cs, last, trailers) + rest == last + CrLf + (EncodeLines(trailers) + rest);
      LastLine(last, limit);
      LineRead(SizeLine, last, EncodeLines(trailers) + rest, decoded, chunk, limit);
      TrailersRead(trailers, rest, decoded, 0, limit);
      assert decoded + DataOf(cs) == decoded;
    } else {
      var more := EncodeBody(cs[1..], last, trailers) + rest;
      assert EncodeBody(cs, last, trailers) + rest == EncodeChunk(cs[0]) + more;
      ChunkRead(cs[0], more, decoded, chunk, limit);
      BodyRead(cs[1..], last, trailers, rest, decoded + cs[0].data, |cs[0].data|, limit);
      assert decoded + DataOf(cs) == decoded + cs[0].data + DataOf(cs[1..]);
    }
  }

  lemma LastLine(last: seq<Byte>, limit: nat)
    requires IsSizeLine(last, 0) && limit <= MaxU64
    ensures ChunkSize(last, limit) == Size(0) && NoLineEnd(last)
  {
    hide Parts, IsHex, HexValue;
    SizeLineRead(last, 0, limit);
  }

  /**
   * The decoding theorem: a well-formed chunked body with lines under 8192 bytes,
   * cut anywhere, decodes to the concatenated chunk data, whatever bytes follow it.
   */
  lemma WellFormedDecodes(cs: seq<Chunk>, last: seq<Byte>, trailers: seq<seq<Byte>>, rest: seq<Byte>, limit: nat,
                          pieces: seq<seq<Byte>>)
    requires WellFormed(cs, last, trailers, limit) && AllShort(cs, last, trailers) && limit <= MaxU64
    requires Joined(pieces) == EncodeBody(cs, last, trailers) + rest
    ensures var d := AppendAll(Fresh, pieces, limit); d.state.Complete? && d.error.None? && d.decoded == DataOf(cs)
  {
    hide Drain, ShortLines, EncodeBody, WellFormed, AllShort;
    BodyRead(cs, last, trailers, rest, [], 0, limit);
    assert [] + Joined(pieces) == Joined(pieces) && [] + DataOf(cs) == DataOf(cs);
    FreshWaits(limit);
    SplitsAlike(Fresh, pieces, limit);
  }
}
