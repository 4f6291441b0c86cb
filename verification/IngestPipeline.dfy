/**
 * The body path of the DASH ingest: the chunked decoder drained into the box
 * reader after every received piece.
 */
module IngestPipeline {
  import opened Bytes
  import opened ChunkedBody
  import opened ChunkedBodyRuns
  import opened BoxStream

  /** `live` is false once a piece was refused; the connection then ends. */
  datatype Pipeline = Pipeline(decoder: Decoder, reader: Reader, live: bool)

  const FreshPipeline := Pipeline(ChunkedBody.Fresh, FreshReader, true)

  function FeedBody(p: Pipeline, piece: seq<Byte>, limit: nat): Pipeline {
    if !p.live || p.decoder.state.Complete? then p
    else
      var d := Append(p.decoder, piece, limit);
      var r := Feed(p.reader, d.decoded);
      Pipeline(d.(decoded := []), r, !r.broken && !d.state.Failed?)
  }

  function FeedAll(pieces: seq<seq<Byte>>, limit: nat): Pipeline {
    if pieces == [] then FreshPipeline
    else FeedBody(FeedAll(pieces[..|pieces| - 1], limit), pieces[|pieces| - 1], limit)
  }

  // ---- the decoder and what was already taken from it

  function After(taken: seq<Byte>, d: Decoder): Decoder {
    d.(decoded := taken + d.decoded)
  }

  lemma TurnAfter(taken: seq<Byte>, d: Decoder, limit: nat)
    requires !d.Ended()
    ensures Turn(After(taken, d), limit) ==
      if Turn(d, limit).None? then None else Some(After(taken, Turn(d, limit).value))
  {
    hide LineEnd, ChunkSize;
    if d.state.Data? && |d.input| >= d.chunk {
      assert taken + d.decoded + d.input[..d.chunk] == taken + (d.decoded + d.input[..d.chunk]);
    }
  }

  lemma {:induction false} DrainAfter(taken: seq<Byte>, d: Decoder, limit: nat)
    ensures Drain(After(taken, d), limit) == After(taken, Drain(d, limit))
    decreases |d.input|, if d.Ended() then 0 else if d.state.Data? then 2 else 1
  {
    hide Turn;
    if !d.Ended() {
      TurnAfter(taken, d, limit);
      if Turn(d, limit).Some? {
        DrainAfter(taken, Turn(d, limit).value, limit);
      }
    }
  }

  /** The pipeline and one decoder that saw the same bytes without being emptied. */
  ghost predicate Tracks(p: Pipeline, whole: Decoder) {
    var r := Feed(FreshReader, whole.decoded);
    SameReader(p.reader, r) &&
    (!r.broken ==> p.decoder == whole.(decoded := []) && (p.live <==> !whole.state.Failed?)) &&
    (r.broken ==> !p.live)
  }

  lemma FeedTracks(p: Pipeline, whole: Decoder, piece: seq<Byte>, limit: nat)
    requires Tracks(p, whole)
    ensures Tracks(FeedBody(p, piece, limit), Append(whole, piece, limit))
  {
    hide Drain, TakeBoxes;
    var d := p.decoder;
    if !whole.Ended() {
      GrowsOnly(whole, piece, limit);
      var out := Drain(whole.(decoded := []).With(piece), limit).decoded;
      FeedTwice(FreshReader, whole.decoded, out);
    }
  }

  lemma GrowsOnly(whole: Decoder, piece: seq<Byte>, limit: nat)
    requires !whole.Ended()
    ensures Append(whole, piece, limit) == After(whole.decoded, Append(whole.(decoded := []), piece, limit))
  {
    hide Drain;
    var emptied := whole.(decoded := []);
    assert whole.decoded + [] == whole.decoded;
    DrainAfter(whole.decoded, emptied.With(piece), limit);
  }

  lemma {:induction false} FeedAllTracks(pieces: seq<seq<Byte>>, limit: nat)
    ensures Tracks(FeedAll(pieces, limit), AppendAll(ChunkedBody.Fresh, pieces, limit))
  {
    hide Tracks, FeedBody, Append;
    if pieces == [] {
      FreshTracks();
    } else {
      FeedAllTracks(pieces[..|pieces| - 1], limit);
      FeedTracks(FeedAll(pieces[..|pieces| - 1], limit), AppendAll(ChunkedBody.Fresh, pieces[..|pieces| - 1], limit),
                 pieces[|pieces| - 1], limit);
    }
  }

  lemma FreshTracks()
    ensures Tracks(FreshPipeline, ChunkedBody.Fresh)
  {
    assert FreshReader.pending + [] == [];
  }

  /**
   * End to end: however a body with short lines is cut, the boxes, the unread
   * bytes and the verdict are those of reading the whole decoded body at once,
   * and no decoded byte is lost.
   */
  lemma PipelineIgnoresCuts(pieces: seq<seq<Byte>>, limit: nat)
    requires ShortLines(ChunkedBody.Fresh.With(Joined(pieces)), limit)
    ensures var whole := Append(ChunkedBody.Fresh, Joined(pieces), limit);
      var r, p := Feed(FreshReader, whole.decoded), FeedAll(pieces, limit);
      SameReader(p.reader, r) && (p.live <==> !r.broken && !whole.state.Failed?) &&
      (!r.broken ==> p.decoder.state == whole.state && p.decoder.error == whole.error) &&
      BytesOf(r.boxes) + r.pending == whole.decoded
  {
    hide Drain, ShortLines, TakeBoxes, FeedAll;
    FreshWaits(limit);
    SplitsAlike(ChunkedBody.Fresh, pieces, limit);
    FeedAllTracks(pieces, limit);
    var whole := Append(ChunkedBody.Fresh, Joined(pieces), limit);
    NothingLost(FreshReader.(pending := [] + whole.decoded));
    assert [] + whole.decoded == whole.decoded;
  }

  /** A well-formed chunked upload of whole boxes, cut anywhere, yields exactly those boxes. */
  lemma UploadYieldsItsBoxes(boxes: seq<TopBox>, cs: seq<Chunk>, last: seq<Byte>, trailers: seq<seq<Byte>>,
                             rest: seq<Byte>, limit: nat, pieces: seq<seq<Byte>>)
    requires forall b | b in boxes :: WholeBox(b)
    requires WellFormed(cs, last, trailers, limit) && AllShort(cs, last, trailers) && limit <= MaxU64
    requires DataOf(cs) == Flat(boxes) && Joined(pieces) == EncodeBody(cs, last, trailers) + rest
    ensures var p := FeedAll(pieces, limit);
      p.live && p.decoder.state.Complete? && p.reader == Reader(boxes, [], false)
  {
    hide Drain, TakeBoxes, FeedAll, EncodeBody, WellFormed, AllShort, AppendAll;
    WellFormedDecodes(cs, last, trailers, rest, limit, pieces);
    FeedAllTracks(pieces, limit);
    assert [] + DataOf(cs) == Flat(boxes);
    BoxesComeBack(boxes, Reader([], Flat(boxes), false), []);
    assert [] + boxes == boxes;
  }
}
