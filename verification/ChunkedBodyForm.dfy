/**
 * Exactly which bodies the chunk decoder takes to be complete, and exactly which it
 * rejects and why, in terms of the lines and data a body is made of.
 */
module ChunkedBodyForm {
  import opened Bytes
  import opened ChunkedBody
  import opened ChunkedBodyRuns

  // ---- size lines

  /** Hexadecimal digits whose number fits 64 bits, or none at all. */
  ghost predicate Fine(text: seq<Byte>) {
    (forall c | c in text :: IsDigit(c)) && HexValue(text) <= MaxU64
  }

  /** Why a size line is refused: the first digit at which it goes wrong, or its number. */
  ghost predicate SizeFault(text: seq<Byte>, e: Error, limit: nat) {
    match e
    case EmptySize => text == []
    case InvalidSize => exists k | 0 <= k < |text| :: Fine(text[..k]) && !IsDigit(text[k])
    case SizeOverflow =>
      exists k | 0 <= k < |text| :: Fine(text[..k]) && IsDigit(text[k]) && HexValue(text[..k + 1]) > MaxU64
    case ChunkTooBig => text != [] && Fine(text) && HexValue(text) > limit
    case _ => false
  }

  lemma {:induction false} SizeFromExactly(text: seq<Byte>, k: nat)
    requires k <= |text| && Fine(text[..k])
    ensures var r := SizeFrom(text[k..], HexValue(text[..k]));
      (r.Size? ==> Fine(text) && r.value == HexValue(text)) &&
      (r.BadSize? ==> (r.error.InvalidSize? || r.error.SizeOverflow?) && SizeFault(text, r.error, 0) && !Fine(text))
    decreases |text| - k
  {
    hide HexValue, IsDigit, DigitOf;
    if k == |text| {
      assert text[..k] == text && text[k..] == [];
    } else {
      var digit := text[k];
      HexDigitIs(digit);
      assert text[k..][0] == digit && text[k..][1..] == text[k + 1..];
      OneMoreDigit(text, k);
      if IsDigit(digit) {
        if HexValue(text[..k + 1]) <= MaxU64 {
          SizeFromExactly(text, k + 1);
        } else {
          NeverFine(text, k + 1);
        }
      } else {
        NeverFine(text, k + 1);
      }
    }
  }

  lemma OneMoreDigit(text: seq<Byte>, k: nat)
    requires k < |text| && Fine(text[..k])
    ensures HexValue(text[..k + 1]) == HexValue(text[..k]) * 16 + DigitOf(text[k])
    ensures HexValue(text[..k]) > (MaxU64 - DigitOf(text[k])) / 16 <==> HexValue(text[..k + 1]) > MaxU64
    ensures Fine(text[..k + 1]) <==> IsDigit(text[k]) && HexValue(text[..k + 1]) <= MaxU64
  {
    assert text[..k + 1][..k] == text[..k] && text[..k + 1][k] == text[k];
    assert text[..k + 1] == text[..k] + [text[k]];
  }

  lemma PrefixIsFine(text: seq<Byte>, k: nat)
    requires k <= |text| && Fine(text)
    ensures Fine(text[..k])
  {
    PrefixValue(text, k);
  }

  lemma NeverFine(text: seq<Byte>, k: nat)
    requires k <= |text| && !Fine(text[..k])
    ensures !Fine(text)
  {
    hide Fine;
    if Fine(text) {
      PrefixIsFine(text, k);
    }
  }

  /** The digit at which a text goes wrong. */
  lemma FaultPlace(text: seq<Byte>, e: Error, limit: nat) returns (k: nat)
    requires SizeFault(text, e, limit) && (e.InvalidSize? || e.SizeOverflow?)
    ensures k < |text| && Fine(text[..k]) && !DigitFits(text, k) && (e.InvalidSize? <==> !IsDigit(text[k]))
  {
    hide Fine, HexValue, IsDigit;
    if e.InvalidSize? {
      k :| k < |text| && Fine(text[..k]) && !IsDigit(text[k]);
    } else {
      k :| k < |text| && Fine(text[..k]) && IsDigit(text[k]) && HexValue(text[..k + 1]) > MaxU64;
    }
  }

  /** Behind fine digits only one place can be wrong. */
  lemma OnePlace(text: seq<Byte>, k: nat, n: nat)
    requires k < |text| && n <= |text| && Fine(text[..n]) && !DigitFits(text, k)
    ensures n <= k
  {
    hide Fine, DigitFits;
    if k < n {
      FitsThere(text, k, n);
    }
  }

  /** Each text goes wrong in one way at most. */
  lemma OneFault(text: seq<Byte>, e: Error, f: Error, limit: nat)
    requires SizeFault(text, e, limit) && SizeFault(text, f, limit)
    ensures e == f
  {
    hide Fine, DigitFits, IsDigit;
    assert text[..|text|] == text;
    if e.InvalidSize? || e.SizeOverflow? {
      var k := FaultPlace(text, e, limit);
      if f.InvalidSize? || f.SizeOverflow? {
        var n := FaultPlace(text, f, limit);
        OnePlace(text, k, n);
        OnePlace(text, n, k);
      } else if f.ChunkTooBig? {
        OnePlace(text, k, |text|);
      }
    } else if f.InvalidSize? || f.SizeOverflow? {
      var n := FaultPlace(text, f, limit);
      if e.ChunkTooBig? {
        OnePlace(text, n, |text|);
      }
    }
  }

  predicate DigitFits(text: seq<Byte>, k: nat)
    requires k < |text|
  {
    IsDigit(text[k]) && HexValue(text[..k + 1]) <= MaxU64
  }

  lemma FitsThere(text: seq<Byte>, k: nat, n: nat)
    requires k < n <= |text| && Fine(text[..n])
    ensures DigitFits(text, k)
  {
    hide Fine, HexValue, IsDigit;
    FineThere(text[..n], k);
    assert text[..n][k] == text[k] && text[..n][..k + 1] == text[..k + 1];
  }

  lemma FineThere(text: seq<Byte>, k: nat)
    requires k < |text| && Fine(text)
    ensures Fine(text[..k + 1]) && IsDigit(text[k]) && HexValue(text[..k + 1]) <= MaxU64
  {
    PrefixIsFine(text, k + 1);
    assert text[..k + 1][k] == text[k];
  }

  /** A size line is read exactly as its number, or refused exactly for its fault. */
  lemma ChunkSizeExactly(line: seq<Byte>, limit: nat)
    requires limit <= MaxU64
    ensures var r := ChunkSize(line, limit);
      (r.Size? && NoLineEnd(line) ==> IsSizeLine(line, r.value)) && (r.Size? ==> r.value <= limit) &&
      (r.BadSize? ==> SizeFault(SizeText(line), r.error, limit))
    ensures forall v: nat | v <= limit && IsSizeLine(line, v) :: ChunkSize(line, limit) == Size(v)
    ensures forall e | SizeFault(SizeText(line), e, limit) :: ChunkSize(line, limit) == BadSize(e)
  {
    hide SizeFrom, SizeText, HexValue, IsDigit;
    var text := SizeText(line);
    assert text[..0] == [] && text[0..] == text;
    NothingIsFine();
    SizeFromExactly(text, 0);
    SizeTextIs(line, HexValue(text));
    forall v: nat | v <= limit && IsSizeLine(line, v)
      ensures ChunkSize(line, limit) == Size(v)
    {
      SizeLineRead(line, v, limit);
    }
    forall e | SizeFault(text, e, limit)
      ensures ChunkSize(line, limit) == BadSize(e)
    {
      match ChunkSize(line, limit) {
        case Size(v) => FineHasNoFault(text, e, limit);
        case BadSize(f) => OneFault(text, e, f, limit);
      }
    }
  }

  lemma NothingIsFine()
    ensures Fine([]) && HexValue([]) == 0
  {
  }

  lemma FineHasNoFault(text: seq<Byte>, e: Error, limit: nat)
    requires Fine(text) && text != [] && HexValue(text) <= limit
    ensures !SizeFault(text, e, limit)
  {
    hide Fine, HexValue, DigitFits, IsDigit;
    assert text[..|text|] == text;
    if SizeFault(text, e, limit) && (e.InvalidSize? || e.SizeOverflow?) {
      var k := FaultPlace(text, e, limit);
      OnePlace(text, k, |text|);
    }
  }

  // ---- chunks in front

  ghost predicate Chunks(cs: seq<Chunk>, limit: nat) {
    forall c | c in cs :: IsSizeLine(c.line, |c.data|) && 0 < |c.data| <= limit
  }

  function LastSize(cs: seq<Chunk>, chunk: nat): nat {
    if cs == [] then chunk else |cs[|cs| - 1].data|
  }

  lemma {:induction false} ChunksRead(cs: seq<Chunk>, tail: seq<Byte>, decoded: seq<Byte>, chunk: nat, limit: nat)
    requires Chunks(cs, limit) && limit <= MaxU64
    ensures Drain(At(SizeLine, EncodeChunks(cs) + tail, decoded, chunk), limit) ==
      Drain(At(SizeLine, tail, decoded + DataOf(cs), LastSize(cs, chunk)), limit)
    decreases |cs|
  {
    hide Drain, IsSizeLine, EncodeChunk;
    if cs == [] {
      assert EncodeChunks(cs) + tail == tail && decoded + DataOf(cs) == decoded;
    } else {
      var more := EncodeChunks(cs[1..]) + tail;
      assert EncodeChunks(cs) + tail == EncodeChunk(cs[0]) + more;
      ChunkRead(cs[0], more, decoded, chunk, limit);
      ChunksRead(cs[1..], tail, decoded + cs[0].data, |cs[0].data|, limit);
      assert decoded + DataOf(cs) == decoded + cs[0].data + DataOf(cs[1..]);
    }
  }

  /** Nothing of another whole chunk: no line, a line that is refused or the last one, or data cut short or not ended. */
  ghost predicate Stuck(tail: seq<Byte>, limit: nat) {
    NoLineEnd(tail) ||
    exists line, more :: Opens(tail, line, more) && (ChunkSize(line, limit).BadSize? || NoChunk(line, more, limit))
  }

  ghost predicate Opens(tail: seq<Byte>, line: seq<Byte>, more: seq<Byte>) {
    tail == line + CrLf + more && NoLineEnd(line)
  }

  ghost predicate NoChunk(line: seq<Byte>, more: seq<Byte>, limit: nat) {
    ChunkSize(line, limit).Size? &&
    var v := ChunkSize(line, limit).value;
    v == 0 || |more| < v + 2 || more[v..v + 2] != CrLf
  }

  /** What starts with a line end, or has none. */
  lemma FirstLine(s: seq<Byte>) returns (line: seq<Byte>, more: seq<Byte>)
    ensures NoLineEnd(s) || Opens(s, line, more)
    ensures !NoLineEnd(s) ==> |more| < |s|
  {
    line, more := [], [];
    var end := LineEnd(s);
    if end < |s| {
      line, more := s[..end], s[end + 2..];
      assert s[end..end + 2] == CrLf;
      assert s == line + CrLf + more;
      forall k: nat | k < |line|
        ensures !IsCrLf(line, k)
      {
        assert IsCrLf(line, k) ==> IsCrLf(s, k);
      }
    } else {
      assert forall k: nat | k < |s| :: !IsCrLf(s, k);
    }
  }

  lemma {:induction false} Unfolds(s: seq<Byte>, limit: nat) returns (cs: seq<Chunk>, tail: seq<Byte>)
    requires limit <= MaxU64
    ensures s == EncodeChunks(cs) + tail && Chunks(cs, limit) && Stuck(tail, limit)
    decreases |s|
  {
    hide NoLineEnd, ChunkSize, IsSizeLine;
    cs, tail := [], s;
    var line, more := FirstLine(s);
    if !NoLineEnd(s) {
      ChunkSizeExactly(line, limit);
      if ChunkSize(line, limit).Size? && !NoChunk(line, more, limit) {
        var v := ChunkSize(line, limit).value;
        var c := Chunk(line, more[..v]);
        var rest := more[v + 2..];
        assert more == c.data + CrLf + rest;
        assert s == EncodeChunk(c) + rest;
        cs, tail := Unfolds(rest, limit);
        assert EncodeChunk(c) + (EncodeChunks(cs) + tail) == EncodeChunk(c) + EncodeChunks(cs) + tail;
        assert ([c] + cs)[1..] == cs;
        cs := [c] + cs;
      }
    }
  }

  lemma {:induction false} TrailersUnfold(s: seq<Byte>) returns (lines: seq<seq<Byte>>, tail: seq<Byte>)
    ensures s == Lines(lines) + tail && (forall t | t in lines :: t != [] && NoLineEnd(t))
    ensures NoLineEnd(tail) || CrLf <= tail
    decreases |s|
  {
    hide NoLineEnd;
    lines, tail := [], s;
    var line, more := FirstLine(s);
    if !NoLineEnd(s) {
      if line == [] {
        assert s == CrLf + more;
      } else {
        lines, tail := TrailersUnfold(more);
        assert ([line] + lines)[1..] == lines;
        assert s == line + CrLf + (Lines(lines) + tail);
        lines := [line] + lines;
      }
    }
  }

  function Lines(lines: seq<seq<Byte>>): seq<Byte>
    decreases |lines|
  {
    if lines == [] then [] else lines[0] + CrLf + Lines(lines[1..])
  }

  lemma {:induction false} LinesEnd(lines: seq<seq<Byte>>)
    ensures EncodeLines(lines) == Lines(lines) + CrLf
    decreases |lines|
  {
    if lines != [] {
      LinesEnd(lines[1..]);
    }
  }

  // ---- outcomes of what is left

  /** A line with no end in sight: too long, or not yet. */
  lemma NoLineDrains(state: State, tail: seq<Byte>, decoded: seq<Byte>, chunk: nat, limit: nat)
    requires NoLineEnd(tail) && (state.SizeLine? || state.TrailerLine?)
    ensures var d := At(state, tail, decoded, chunk);
      Drain(d, limit) == if |tail| > 8192 then Fail(d, LineTooLong) else d
  {
    LineEndIs(tail, |tail|);
  }

  lemma {:induction false} LinesRead(lines: seq<seq<Byte>>, tail: seq<Byte>, decoded: seq<Byte>, chunk: nat, limit: nat)
    requires forall t | t in lines :: t != [] && NoLineEnd(t)
    ensures Drain(At(TrailerLine, Lines(lines) + tail, decoded, chunk), limit) ==
      Drain(At(TrailerLine, tail, decoded, chunk), limit)
    decreases |lines|
  {
    hide Drain, NoLineEnd;
    if lines == [] {
      assert Lines(lines) + tail == tail;
    } else {
      var more := Lines(lines[1..]) + tail;
      assert Lines(lines) + tail == lines[0] + CrLf + more;
      LineRead(TrailerLine, lines[0], more, decoded, chunk, limit);
      assert forall t | t in lines[1..] :: t in lines;
      LinesRead(lines[1..], tail, decoded, chunk, limit);
    }
  }

  lemma EndRead(rest: seq<Byte>, decoded: seq<Byte>, chunk: nat, limit: nat)
    ensures Drain(At(TrailerLine, CrLf + rest, decoded, chunk), limit) == At(Complete, rest, decoded, chunk)
  {
    NothingHasNoEnd();
    assert [] + CrLf + rest == CrLf + rest;
    LineRead(TrailerLine, [], rest, decoded, chunk, limit);
  }

  lemma BadLineRead(line: seq<Byte>, more: seq<Byte>, decoded: seq<Byte>, chunk: nat, limit: nat)
    requires NoLineEnd(line) && ChunkSize(line, limit).BadSize?
    ensures Drain(At(SizeLine, line + CrLf + more, decoded, chunk), limit) ==
      Fail(At(SizeLine, more, decoded, chunk), ChunkSize(line, limit).error)
  {
    hide ChunkSize, NoLineEnd;
    LineRead(SizeLine, line, more, decoded, chunk, limit);
  }

  lemma ZeroLineRead(line: seq<Byte>, more: seq<Byte>, decoded: seq<Byte>, chunk: nat, limit: nat)
    requires NoLineEnd(line) && ChunkSize(line, limit) == Size(0)
    ensures Drain(At(SizeLine, line + CrLf + more, decoded, chunk), limit) == Drain(At(TrailerLine, more, decoded, 0), limit)
  {
    hide ChunkSize, NoLineEnd, Drain;
    LineRead(SizeLine, line, more, decoded, chunk, limit);
  }

  /** Data cut short waits; data not ended by a line end is refused. */
  lemma CutRead(line: seq<Byte>, more: seq<Byte>, decoded: seq<Byte>, chunk: nat, limit: nat)
    requires NoLineEnd(line) && NoChunk(line, more, limit) && ChunkSize(line, limit).value > 0
    ensures var v := ChunkSize(line, limit).value;
      var r := Drain(At(SizeLine, line + CrLf + more, decoded, chunk), limit);
      if |more| < v + 2 then !r.Ended() else r.state.Failed? && r.error == Some(MissingTerminator)
  {
    hide ChunkSize, NoLineEnd;
    LineRead(SizeLine, line, more, decoded, chunk, limit);
    var v := ChunkSize(line, limit).value;
    if |more| >= v {
      var mark := At(DataCrLf, more[v..], decoded + more[..v], v);
      DrainTurn(At(Data, more, decoded, v), mark, limit, true);
      if |more| >= v + 2 {
        assert more[v..v + 2] == [more[v], more[v + 1]];
        assert !IsCrLf(more[v..], 0);
        DrainTurn(mark, Fail(mark, MissingTerminator), limit, true);
      }
    }
  }

  // ---- complete

  /** The body of these chunks, this last line and these trailer lines, with something behind it. */
  ghost predicate IsBody(s: seq<Byte>, limit: nat, cs: seq<Chunk>, last: seq<Byte>, trailers: seq<seq<Byte>>,
                         rest: seq<Byte>) {
    WellFormed(cs, last, trailers, limit) && s == EncodeBody(cs, last, trailers) + rest
  }

  /** What a refused body is: chunks, perhaps the last line and trailer lines, and then something wrong. */
  ghost predicate IsFaulty(s: seq<Byte>, limit: nat, e: Error, cs: seq<Chunk>, tail: seq<Byte>) {
    Chunks(cs, limit) && s == EncodeChunks(cs) + tail &&
    ((e == LineTooLong && NoLineEnd(tail) && |tail| > 8192) ||
     (e == LineTooLong && exists last, trailers, more :: TrailersRunOn(tail, last, trailers, more)) ||
     (exists line, text, extension, more :: BadLine(tail, limit, e, line, text, extension, more)) ||
     (e == MissingTerminator && exists line, data, more :: NotEnded(tail, limit, line, data, more)))
  }

  ghost predicate BadLine(tail: seq<Byte>, limit: nat, e: Error, line: seq<Byte>, text: seq<Byte>, extension: seq<Byte>,
                          more: seq<Byte>) {
    Opens(tail, line, more) && Parts(line, text, extension) && SizeFault(text, e, limit)
  }

  ghost predicate TrailersRunOn(tail: seq<Byte>, last: seq<Byte>, trailers: seq<seq<Byte>>, more: seq<Byte>) {
    IsSizeLine(last, 0) && (forall t | t in trailers :: t != [] && NoLineEnd(t)) && NoLineEnd(more) && |more| > 8192 &&
    tail == last + CrLf + Lines(trailers) + more
  }

  ghost predicate NotEnded(tail: seq<Byte>, limit: nat, line: seq<Byte>, data: seq<Byte>, more: seq<Byte>) {
    IsSizeLine(line, |data|) && 0 < |data| <= limit && |more| >= 2 && more[..2] != CrLf && tail == line + CrLf + data + more
  }

  /** What is left behind the chunks is the end of a body, something wrong, or not enough to tell. */
  ghost predicate TailSays(tail: seq<Byte>, decoded: seq<Byte>, chunk: nat, limit: nat) {
    var r := Drain(At(SizeLine, tail, decoded, chunk), limit);
    (r.state.Complete? ==>
       exists last, trailers :: IsBody(tail, limit, [], last, trailers, r.input) && r == At(Complete, r.input, decoded, 0)) &&
    (r.state.Failed? ==> r.error.Some? && IsFaulty(tail, limit, r.error.value, [], tail)) &&
    (!r.state.Failed? ==> r.error.None?)
  }

  lemma StuckSays(tail: seq<Byte>, decoded: seq<Byte>, chunk: nat, limit: nat)
    requires Stuck(tail, limit) && limit <= MaxU64
    ensures TailSays(tail, decoded, chunk, limit)
  {
    hide Drain, NoLineEnd, ChunkSize, IsSizeLine, SizeFault, SizeText, EncodeBody, Parts;
    assert EncodeChunks([]) + tail == tail;
    if NoLineEnd(tail) {
      NoLineDrains(SizeLine, tail, decoded, chunk, limit);
    } else {
      var line, more :| Opens(tail, line, more) && (ChunkSize(line, limit).BadSize? || NoChunk(line, more, limit));
      ChunkSizeExactly(line, limit);
      if ChunkSize(line, limit).BadSize? {
        BadLineRead(line, more, decoded, chunk, limit);
        var text := SizeText(line);
        PartsExactly(line, text, line[|text|..]);
        assert BadLine(tail, limit, ChunkSize(line, limit).error, line, text, line[|text|..], more);
      } else if ChunkSize(line, limit).value > 0 {
        CutSays(tail, line, more, decoded, chunk, limit);
      } else {
        LastSays(tail, line, more, decoded, chunk, limit);
      }
    }
  }

  lemma CutSays(tail: seq<Byte>, line: seq<Byte>, more: seq<Byte>, decoded: seq<Byte>, chunk: nat, limit: nat)
    requires Opens(tail, line, more) && NoChunk(line, more, limit) && ChunkSize(line, limit).value > 0 && limit <= MaxU64
    ensures TailSays(tail, decoded, chunk, limit)
  {
    hide Drain, NoLineEnd, ChunkSize, IsSizeLine, SizeFault, BadLine, TrailersRunOn, IsBody;
    assert EncodeChunks([]) + tail == tail;
    ChunkSizeExactly(line, limit);
    CutRead(line, more, decoded, chunk, limit);
    var v := ChunkSize(line, limit).value;
    if |more| >= v + 2 {
      CutInTwo(line, more, v);
      assert NotEnded(tail, limit, line, more[..v], more[v..]);
    } else {
      WaitingIsPlain(At(SizeLine, tail, decoded, chunk), limit);
    }
  }

  lemma CutInTwo(line: seq<Byte>, more: seq<Byte>, v: nat)
    requires |more| >= v + 2
    ensures more[v..][..2] == more[v..v + 2] && line + CrLf + more == line + CrLf + more[..v] + more[v..]
  {
    assert more == more[..v] + more[v..];
  }

  /** A decoder that never failed carries no error. */
  lemma {:induction false} WaitingIsPlain(d: Decoder, limit: nat)
    requires d.error.None? && !d.state.Failed?
    ensures !Drain(d, limit).state.Failed? ==> Drain(d, limit).error.None?
    decreases |d.input|, if d.Ended() then 0 else if d.state.Data? then 2 else 1
  {
    hide LineEnd, ChunkSize;
    if !d.Ended() && Turn(d, limit).Some? && !Turn(d, limit).value.state.Failed? {
      WaitingIsPlain(Turn(d, limit).value, limit);
    }
  }

  lemma LastSays(tail: seq<Byte>, line: seq<Byte>, more: seq<Byte>, decoded: seq<Byte>, chunk: nat, limit: nat)
    requires Opens(tail, line, more) && ChunkSize(line, limit) == Size(0) && limit <= MaxU64
    ensures TailSays(tail, decoded, chunk, limit)
  {
    hide Drain, NoLineEnd, ChunkSize, IsSizeLine, SizeFault, TailSays;
    ChunkSizeExactly(line, limit);
    ZeroLineRead(line, more, decoded, chunk, limit);
    var trailers, end := TrailersUnfold(more);
    LinesRead(trailers, end, decoded, 0, limit);
    if NoLineEnd(end) {
      assert tail == line + CrLf + Lines(trailers) + end;
      RunOnSays(tail, line, trailers, end, decoded, chunk, limit);
    } else {
      var rest := end[2..];
      assert end == CrLf + rest;
      assert tail == line + CrLf + (Lines(trailers) + CrLf) + rest;
      EndSays(tail, line, trailers, rest, decoded, chunk, limit);
    }
  }

  lemma RunOnSays(tail: seq<Byte>, line: seq<Byte>, trailers: seq<seq<Byte>>, end: seq<Byte>, decoded: seq<Byte>,
                  chunk: nat, limit: nat)
    requires IsSizeLine(line, 0) && (forall t | t in trailers :: t != [] && NoLineEnd(t)) && NoLineEnd(end)
    requires tail == line + CrLf + Lines(trailers) + end
    requires Drain(At(SizeLine, tail, decoded, chunk), limit) == Drain(At(TrailerLine, end, decoded, 0), limit)
    ensures TailSays(tail, decoded, chunk, limit)
  {
    hide Drain, NoLineEnd, IsSizeLine, SizeFault, BadLine, NotEnded;
    NoLineDrains(TrailerLine, end, decoded, 0, limit);
    assert EncodeChunks([]) + tail == tail;
    if |end| > 8192 {
      assert TrailersRunOn(tail, line, trailers, end);
    }
  }

  lemma EndSays(tail: seq<Byte>, line: seq<Byte>, trailers: seq<seq<Byte>>, rest: seq<Byte>, decoded: seq<Byte>, chunk: nat,
                limit: nat)
    requires IsSizeLine(line, 0) && (forall t | t in trailers :: t != [] && NoLineEnd(t))
    requires tail == line + CrLf + (Lines(trailers) + CrLf) + rest
    requires Drain(At(SizeLine, tail, decoded, chunk), limit) == Drain(At(TrailerLine, CrLf + rest, decoded, 0), limit)
    ensures TailSays(tail, decoded, chunk, limit)
  {
    hide Drain, NoLineEnd, IsSizeLine, IsFaulty;
    EndRead(rest, decoded, 0, limit);
    LinesEnd(trailers);
    assert tail == EncodeChunks([]) + (line + CrLf + (Lines(trailers) + CrLf)) + rest;
    assert IsBody(tail, limit, [], line, trailers, rest);
  }

  lemma BodyBehind(s: seq<Byte>, tail: seq<Byte>, limit: nat, cs: seq<Chunk>, last: seq<Byte>, trailers: seq<seq<Byte>>,
                   rest: seq<Byte>)
    requires Chunks(cs, limit) && s == EncodeChunks(cs) + tail && IsBody(tail, limit, [], last, trailers, rest)
    ensures IsBody(s, limit, cs, last, trailers, rest)
  {
    hide IsSizeLine, NoLineEnd;
    assert EncodeBody([], last, trailers) == last + CrLf + EncodeLines(trailers);
    assert EncodeChunks(cs) + (last + CrLf + EncodeLines(trailers) + rest) ==
      EncodeChunks(cs) + (last + CrLf + EncodeLines(trailers)) + rest;
  }

  lemma FaultBehind(s: seq<Byte>, tail: seq<Byte>, limit: nat, cs: seq<Chunk>, e: Error)
    requires Chunks(cs, limit) && s == EncodeChunks(cs) + tail && IsFaulty(tail, limit, e, [], tail)
    ensures IsFaulty(s, limit, e, cs, tail)
  {
    hide IsSizeLine, NoLineEnd, BadLine, TrailersRunOn, NotEnded;
  }

  lemma FaultRead(s: seq<Byte>, limit: nat, e: Error, cs: seq<Chunk>, tail: seq<Byte>)
    requires IsFaulty(s, limit, e, cs, tail) && limit <= MaxU64
    ensures var r := Drain(At(SizeLine, s, [], 0), limit); r.state.Failed? && r.error == Some(e)
  {
    hide Drain, NoLineEnd, ChunkSize, IsSizeLine, SizeFault, SizeText, NotEnded, TrailersRunOn;
    ChunksRead(cs, tail, [], 0, limit);
    var decoded, chunk := [] + DataOf(cs), LastSize(cs, 0);
    if e == LineTooLong && NoLineEnd(tail) && |tail| > 8192 {
      NoLineDrains(SizeLine, tail, decoded, chunk, limit);
    } else if line, text, extension, more :| BadLine(tail, limit, e, line, text, extension, more) {
      PartsExactly(line, text, extension);
      ChunkSizeExactly(line, limit);
      BadLineRead(line, more, decoded, chunk, limit);
    } else if line, data, more :| e == MissingTerminator && NotEnded(tail, limit, line, data, more) {
      NotEndedRead(tail, limit, line, data, more, decoded, chunk);
    } else {
      var last, trailers, more :| TrailersRunOn(tail, last, trailers, more);
      RunOnRead(tail, limit, last, trailers, more, decoded, chunk);
    }
  }

  lemma NotEndedRead(tail: seq<Byte>, limit: nat, line: seq<Byte>, data: seq<Byte>, more: seq<Byte>, decoded: seq<Byte>,
                     chunk: nat)
    requires NotEnded(tail, limit, line, data, more) && limit <= MaxU64
    ensures var r := Drain(At(SizeLine, tail, decoded, chunk), limit); r.state.Failed? && r.error == Some(MissingTerminator)
  {
    hide Drain, NoLineEnd, ChunkSize, SizeText, Parts, IsHex, HexValue;
    ChunkSizeExactly(line, limit);
    var body := data + more;
    assert tail == line + CrLf + body;
    assert body[|data|..|data| + 2] == more[..2];
    CutRead(line, body, decoded, chunk, limit);
  }

  lemma RunOnRead(tail: seq<Byte>, limit: nat, last: seq<Byte>, trailers: seq<seq<Byte>>, more: seq<Byte>,
                  decoded: seq<Byte>, chunk: nat)
    requires TrailersRunOn(tail, last, trailers, more) && limit <= MaxU64
    ensures var r := Drain(At(SizeLine, tail, decoded, chunk), limit); r.state.Failed? && r.error == Some(LineTooLong)
  {
    hide Drain, NoLineEnd, ChunkSize, SizeText, Parts, IsHex, HexValue;
    ChunkSizeExactly(last, limit);
    assert tail == last + CrLf + (Lines(trailers) + more);
    ZeroLineRead(last, Lines(trailers) + more, decoded, chunk, limit);
    LinesRead(trailers, more, decoded, 0, limit);
    NoLineDrains(TrailerLine, more, decoded, 0, limit);
  }

  /**
   * The body at the front of the bytes decides: they complete exactly when they start with
   * a well-formed body, and then the decoder holds its data and what is behind it.
   */
  lemma CompletesExactly(s: seq<Byte>, limit: nat)
    requires limit <= MaxU64
    ensures var r := Append(Fresh, s, limit);
      (r.state.Complete? <==> exists cs, last, trailers, rest :: IsBody(s, limit, cs, last, trailers, rest)) &&
      forall cs, last, trailers, rest | IsBody(s, limit, cs, last, trailers, rest) :: r == At(Complete, rest, DataOf(cs), 0)
  {
    hide Drain, IsBody;
    var r := Drain(At(SizeLine, s, [], 0), limit);
    assert Fresh.With(s) == At(SizeLine, s, [], 0) by { assert [] + s == s; }
    forall cs, last, trailers, rest | IsBody(s, limit, cs, last, trailers, rest)
      ensures r == At(Complete, rest, DataOf(cs), 0)
    {
      BodyIsRead(s, limit, cs, last, trailers, rest);
    }
    var cs, tail := Unfolds(s, limit);
    ChunksRead(cs, tail, [], 0, limit);
    StuckSays(tail, [] + DataOf(cs), LastSize(cs, 0), limit);
    if r.state.Complete? {
      var last, trailers :| IsBody(tail, limit, [], last, trailers, r.input);
      BodyBehind(s, tail, limit, cs, last, trailers, r.input);
    }
  }

  lemma BodyIsRead(s: seq<Byte>, limit: nat, cs: seq<Chunk>, last: seq<Byte>, trailers: seq<seq<Byte>>, rest: seq<Byte>)
    requires IsBody(s, limit, cs, last, trailers, rest) && limit <= MaxU64
    ensures Drain(At(SizeLine, s, [], 0), limit) == At(Complete, rest, DataOf(cs), 0)
  {
    hide Drain, WellFormed, EncodeBody, ShortLines;
    BodyRead(cs, last, trailers, rest, [], 0, limit);
    assert [] + DataOf(cs) == DataOf(cs);
  }

  /** Bytes are refused exactly when chunks are followed by something wrong, and for that. */
  lemma RefusedExactly(s: seq<Byte>, limit: nat, e: Error)
    requires limit <= MaxU64
    ensures var r := Append(Fresh, s, limit);
      r.state.Failed? && r.error == Some(e) <==> exists cs, tail :: IsFaulty(s, limit, e, cs, tail)
  {
    hide Drain, IsFaulty, IsBody;
    var r := Drain(At(SizeLine, s, [], 0), limit);
    assert Fresh.With(s) == At(SizeLine, s, [], 0) by { assert [] + s == s; }
    if cs, tail :| IsFaulty(s, limit, e, cs, tail) {
      FaultRead(s, limit, e, cs, tail);
    }
    var cs, tail := Unfolds(s, limit);
    ChunksRead(cs, tail, [], 0, limit);
    StuckSays(tail, [] + DataOf(cs), LastSize(cs, 0), limit);
    if r.state.Failed? && r.error == Some(e) {
      FaultBehind(s, tail, limit, cs, e);
    }
  }
}
