/**
 * The incremental decoder of the HTTP chunked transfer coding (section 7.1 of
 * RFC 9112): a state machine over a growing input buffer.
 */
module ChunkedBody {
  import opened Bytes

  const MaxLine := 8192
  const Cr: Byte := 13
  const Lf: Byte := 10

  datatype State = SizeLine | Data | DataCrLf | TrailerLine | Complete | Failed

  datatype Error = LineTooLong | EmptySize | InvalidSize | SizeOverflow | ChunkTooBig | MissingTerminator

  datatype Decoder = Decoder(state: State, input: seq<Byte>, decoded: seq<Byte>, chunk: nat, error: Option<Error>)
  {
    predicate Ended() {
      state.Complete? || state.Failed?
    }

    function With(bytes: seq<Byte>): Decoder {
      this.(input := input + bytes)
    }
  }

  const Fresh := Decoder(SizeLine, [], [], 0, None)

  // ---- lines

  predicate IsCrLf(s: seq<Byte>, i: nat) {
    i + 1 < |s| && s[i] == Cr && s[i + 1] == Lf
  }

  /** The first line end, or the length when there is none. */
  function LineEnd(s: seq<Byte>): (r: nat)
    ensures r <= |s| && (r < |s| ==> IsCrLf(s, r)) && forall k: nat | k < r :: !IsCrLf(s, k)
    decreases |s|
  {
    if |s| < 2 then |s|
    else if IsCrLf(s, 0) then 0
    else
      var r := LineEnd(s[1..]);
      assert forall k: nat | 0 < k :: IsCrLf(s, k) <==> IsCrLf(s[1..], k - 1);
      1 + r
  }

  lemma LineEndIs(s: seq<Byte>, r: nat)
    requires r <= |s| && (r < |s| ==> IsCrLf(s, r)) && forall k: nat | k < r :: !IsCrLf(s, k)
    ensures LineEnd(s) == r
  {
    assert LineEnd(s) < |s| ==> IsCrLf(s, LineEnd(s));
    assert r < |s| ==> IsCrLf(s, r);
  }

  /** More bytes do not move a line end already found; a new one cannot be before the old last byte. */
  lemma LineEndWithMore(s: seq<Byte>, more: seq<Byte>)
    ensures LineEnd(s) < |s| ==> LineEnd(s + more) == LineEnd(s)
    ensures LineEnd(s) == |s| ==> LineEnd(s + more) + 1 >= |s|
  {
    assert forall k: nat | k + 1 < |s| :: IsCrLf(s, k) <==> IsCrLf(s + more, k);
    if LineEnd(s) < |s| {
      LineEndIs(s + more, LineEnd(s));
    }
  }

  datatype Size = Size(value: nat) | BadSize(error: Error)

  /** The digit loop, stopping at the first bad digit or overflow. */
  function SizeFrom(text: seq<Byte>, value: nat): Size
    decreases |text|
  {
    if text == [] then Size(value)
    else
      var digit := HexDigit(text[0]);
      if digit.None? then BadSize(InvalidSize)
      else if value > (MaxU64 - digit.value) / 16 then BadSize(SizeOverflow)
      else SizeFrom(text[1..], value * 16 + digit.value)
  }

  /** The text before the first semicolon. */
  function SizeText(line: seq<Byte>): (t: seq<Byte>)
    ensures t <= line
    decreases |line|
  {
    if line == [] || line[0] == 59 then []
    else
      var t := SizeText(line[1..]);
      assert line == [line[0]] + line[1..];
      [line[0]] + t
  }

  function ChunkSize(line: seq<Byte>, limit: nat): Size {
    var text := SizeText(line);
    if text == [] then BadSize(EmptySize)
    else
      match SizeFrom(text, 0)
      case BadSize(e) => BadSize(e)
      case Size(v) => if v > limit then BadSize(ChunkTooBig) else Size(v)
  }

  // ---- one turn of the loop

  function Fail(d: Decoder, e: Error): Decoder {
    d.(state := Failed, error := Some(e))
  }

  /** What a complete line does, once it is taken from the input. */
  function TakeLine(d: Decoder, line: seq<Byte>, limit: nat): Decoder {
    if d.state.TrailerLine? then (if line == [] then d.(state := Complete) else d)
    else
      match ChunkSize(line, limit)
      case BadSize(e) => Fail(d, e)
      case Size(v) => d.(chunk := v, state := if v == 0 then TrailerLine else Data)
  }

  /** The next state, or None when the decoder must wait for bytes. */
  function Turn(d: Decoder, limit: nat): (r: Option<Decoder>)
    requires !d.Ended()
    ensures r.Some? ==> |r.value.input| <= |d.input|
    ensures r.Some? && !r.value.Ended() && !d.state.Data? ==> |r.value.input| < |d.input|
    ensures r.Some? && d.state.Data? ==> r.value.state.DataCrLf?
  {
    match d.state
    case SizeLine => LineTurn(d, limit)
    case TrailerLine => LineTurn(d, limit)
    case Data =>
      if |d.input| < d.chunk then None
      else Some(d.(input := d.input[d.chunk..], decoded := d.decoded + d.input[..d.chunk], state := DataCrLf))
    case DataCrLf =>
      if |d.input| < 2 then None
      else if !IsCrLf(d.input, 0) then Some(Fail(d, MissingTerminator))
      else Some(d.(input := d.input[2..], state := SizeLine))
  }

  function LineTurn(d: Decoder, limit: nat): (r: Option<Decoder>)
    requires d.state.SizeLine? || d.state.TrailerLine?
    ensures r.Some? ==> |r.value.input| <= |d.input| && (!r.value.Ended() ==> |r.value.input| < |d.input|)
  {
    var end := LineEnd(d.input);
    if end == |d.input| then
      if |d.input| > MaxLine then Some(Fail(d, LineTooLong)) else None
    else Some(TakeLine(d.(input := d.input[end + 2..]), d.input[..end], limit))
  }

  /** The loop: turns until the decoder waits or ends. */
  function Drain(d: Decoder, limit: nat): (r: Decoder)
    ensures !r.Ended() ==> Turn(r, limit).None?
    decreases |d.input|, if d.Ended() then 0 else if d.state.Data? then 2 else 1
  {
    if d.Ended() then d
    else
      var next := Turn(d, limit);
      if next.None? then d else Drain(next.value, limit)
  }

  function Append(d: Decoder, bytes: seq<Byte>, limit: nat): Decoder {
    if d.Ended() then d else Drain(d.With(bytes), limit)
  }

  function AppendAll(d: Decoder, pieces: seq<seq<Byte>>, limit: nat): Decoder {
    if pieces == [] then d
    else Append(AppendAll(d, pieces[..|pieces| - 1], limit), pieces[|pieces| - 1], limit)
  }

  function Joined(pieces: seq<seq<Byte>>): seq<Byte> {
    if pieces == [] then [] else Joined(pieces[..|pieces| - 1]) + pieces[|pieces| - 1]
  }

  // ---- the class

  class ChunkedBodyDecoder {
    const limit: nat
    var state: State
    var input: seq<Byte>
    var decoded: seq<Byte>
    var chunk: nat
    var error: Option<Error>

    ghost function Model(): Decoder
      reads this
    {
      Decoder(state, input, decoded, chunk, error)
    }

    constructor (limit: nat)
      ensures Model() == Fresh && this.limit == limit
    {
      this.limit := limit;
      state, input, decoded, chunk, error := SizeLine, [], [], 0, None;
    }

    method AppendBytes(bytes: seq<Byte>)
      modifies this
      ensures Model() == Append(old(Model()), bytes, limit)
    {
      hide Drain, Turn;
      if state.Failed? || state.Complete? {
        return;
      }
      input := input + bytes;
      ParseAvailable();
    }

    method SearchCrLf() returns (end: nat)
      ensures end == LineEnd(input)
    {
      end := 0;
      while end < |input| && !IsCrLf(input, end)
        invariant end <= |input| && forall k: nat | k < end :: !IsCrLf(input, k)
      {
        end := end + 1;
      }
      LineEndIs(input, end);
    }

    method ParseSize(text: seq<Byte>) returns (size: Size)
      ensures size == SizeFrom(text, 0)
    {
      var value: nat := 0;
      for i := 0 to |text|
        invariant SizeFrom(text[i..], value) == SizeFrom(text, 0)
      {
        assert text[i..][1..] == text[i + 1..];
        var digit := HexDigit(text[i]);
        if digit.None? {
          return BadSize(InvalidSize);
        }
        if value > (MaxU64 - digit.value) / 16 {
          return BadSize(SizeOverflow);
        }
        value := value * 16 + digit.value;
      }
      return Size(value);
    }

    method ReadLine(line: seq<Byte>)
      requires state.SizeLine? || state.TrailerLine?
      modifies this
      ensures Model() == TakeLine(old(Model()), line, limit)
    {
      hide SizeFrom, SizeText;
      if state.TrailerLine? {
        if line == [] {
          state := Complete;
        }
        return;
      }
      var text := SizeText(line);
      if text == [] {
        state, error := Failed, Some(EmptySize);
        return;
      }
      var size := ParseSize(text);
      if size.BadSize? {
        state, error := Failed, Some(size.error);
        return;
      }
      if size.value > limit {
        state, error := Failed, Some(ChunkTooBig);
        return;
      }
      chunk := size.value;
      state := if size.value == 0 then TrailerLine else Data;
    }

    /** One turn; false when the decoder waits. */
    method TakeTurn() returns (moved: bool)
      requires !Model().Ended()
      modifies this
      ensures moved ==> Turn(old(Model()), limit) == Some(Model())
      ensures !moved ==> Turn(old(Model()), limit).None? && Model() == old(Model())
    {
      hide TakeLine, LineEnd;
      if state.SizeLine? || state.TrailerLine? {
        var end := SearchCrLf();
        if end == |input| {
          if |input| > MaxLine {
            state, error := Failed, Some(LineTooLong);
            return true;
          }
          return false;
        }
        var line := input[..end];
        input := input[end + 2..];
        ReadLine(line);
      } else if state.Data? {
        if |input| < chunk {
          return false;
        }
        decoded := decoded + input[..chunk];
        input := input[chunk..];
        state := DataCrLf;
      } else {
        if |input| < 2 {
          return false;
        }
        if input[0] != Cr || input[1] != Lf {
          state, error := Failed, Some(MissingTerminator);
          return true;
        }
        input := input[2..];
        state := SizeLine;
      }
      return true;
    }

    method ParseAvailable()
      modifies this
      ensures Model() == Drain(old(Model()), limit)
    {
      hide Turn;
      while !state.Failed? && !state.Complete?
        invariant Drain(Model(), limit) == Drain(old(Model()), limit)
        decreases |input|, if state.Failed? || state.Complete? then 0 else if state.Data? then 2 else 1
      {
        var moved := TakeTurn();
        if !moved {
          return;
        }
      }
    }

    method TakeDecoded() returns (out: seq<Byte>)
      modifies `decoded
      ensures out == old(decoded) && decoded == []
    {
      out := decoded;
      decoded := [];
    }
  }
}
