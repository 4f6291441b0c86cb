/**
 * Coalescing a progressive track into CMAF objects: groups of pictures cut into
 * objects of at most 120 samples, in one MoQ group per track.
 */
module Coalesce {
  import opened Bytes
  import opened CmafObject
  import LocEncoder

  const MaxPerObject := 120

  /** An object of the track; the payload is the whole CMAF fragment. */
  datatype CmafFragment = CmafFragment(group: nat, id: nat, startUs: nat, durationUs: nat, earliestUs: nat, sap: nat,
                                       payload: seq<Byte>)

  /** Which samples an object takes, and whether it opens a group of pictures. */
  datatype Piece = Piece(first: nat, count: nat, opens: bool)

  // ---- time

  function ScaleToUs(value: nat, timescale: nat): nat {
    if timescale == 0 then 0 else LocEncoder.Quotient(value * 1000000 % TwoTo64, timescale)
  }

  function PresentationUs(decode: nat, shift: int, timescale: nat): nat {
    ScaleToUs(if decode + shift < 0 then 0 else decode + shift, timescale)
  }

  /** The decode time of sample `i`, or the end of the track. */
  function Time(t: RemuxTrack, i: nat): nat
    requires i <= |t.durations|
  {
    SumNonNegative(t.durations[..i]);
    Sum(t.durations[..i])
  }

  lemma TimeStep(t: RemuxTrack, i: nat)
    requires i < |t.durations|
    ensures Time(t, i + 1) == Time(t, i) + t.durations[i]
  {
    assert t.durations[..i + 1][..i] == t.durations[..i];
  }

  method DecodeTimes(t: RemuxTrack) returns (times: seq<nat>)
    ensures times == seq(|t.durations| + 1, i requires 0 <= i <= |t.durations| => Time(t, i))
  {
    times := [0];
    for i := 0 to |t.durations|
      invariant times == seq(i + 1, k requires 0 <= k <= i => Time(t, k))
    {
      TimeStep(t, i);
      times := times + [times[i] + t.durations[i]];
    }
  }

  // ---- where groups of pictures start

  /** The first indices that satisfy a mark; index 0 always does. */
  function Marked(marks: seq<bool>, k: nat): (r: seq<nat>)
    requires k <= |marks|
  {
    if k == 0 then []
    else if k == 1 || marks[k - 1] then Marked(marks, k - 1) + [k - 1]
    else Marked(marks, k - 1)
  }

  /** The video group reached at this time, from group `v` on. */
  function Reached(starts: seq<nat>, v: nat, time: nat): (r: nat)
    requires v < |starts|
    ensures v <= r < |starts|
    decreases |starts| - v
  {
    if v + 1 < |starts| && time >= starts[v + 1] then Reached(starts, v + 1, time) else v
  }

  /** The video group under way at sample `i` of a track with these times. */
  function GroupAt(times: seq<nat>, starts: seq<nat>, i: nat): (r: nat)
    requires i < |times| && starts != []
    ensures r < |starts|
  {
    Reached(starts, if i == 0 then 0 else GroupAt(times, starts, i - 1), times[i])
  }

  /** Which samples enter a new video group. */
  function Entering(times: seq<nat>, starts: seq<nat>): (r: seq<bool>)
    requires starts != []
    ensures |r| == |times|
  {
    seq(|times|, i requires 0 <= i < |times| => i == 0 || GroupAt(times, starts, i) != GroupAt(times, starts, i - 1))
  }

  function SampleTimesUs(t: RemuxTrack): (r: seq<nat>)
    ensures |r| == |t.durations|
  {
    seq(|t.durations|, i requires 0 <= i < |t.durations| => ScaleToUs(Time(t, i), t.timescale))
  }

  function GopStarts(t: RemuxTrack, videoStarts: seq<nat>): seq<nat>
    requires |t.sync| == |t.durations| > 0
  {
    if t.video then Marked(t.sync, |t.sync|)
    else if videoStarts != [] then Marked(Entering(SampleTimesUs(t), videoStarts), |t.durations|)
    else [0]
  }

  predicate Starts(starts: seq<nat>, n: nat) {
    starts != [] && starts[0] == 0 && starts[|starts| - 1] < n &&
    forall g | 0 < g < |starts| :: starts[g - 1] < starts[g]
  }

  lemma {:induction false} MarkedAreStarts(marks: seq<bool>, k: nat)
    requires 0 < k <= |marks|
    ensures Starts(Marked(marks, k), k)
    ensures forall i :: i in Marked(marks, k) <==> 0 <= i < k && (i == 0 || marks[i])
  {
    if k > 1 {
      MarkedAreStarts(marks, k - 1);
      var before := Marked(marks, k - 1);
      assert Marked(marks, k) == before || Marked(marks, k) == before + [k - 1];
    } else {
      assert Marked(marks, 0) == [];
      assert Marked(marks, 1) == [0];
    }
  }

  /** The start times of the video groups, for the tracks that follow them. */
  method VideoGroupStartTimes(video: RemuxTrack) returns (starts: seq<nat>)
    requires |video.sync| == |video.durations|
    ensures |starts| == |Marked(video.sync, |video.sync|)|
    ensures forall g | 0 <= g < |starts| ::
      0 <= Marked(video.sync, |video.sync|)[g] < |video.sync| &&
      starts[g] == ScaleToUs(Time(video, Marked(video.sync, |video.sync|)[g]), video.timescale)
  {
    starts := [];
    var decode: nat := 0;
    for i := 0 to |video.durations|
      invariant decode == Time(video, i) && |starts| == |Marked(video.sync, i)|
      invariant forall g | 0 <= g < |starts| :: 0 <= Marked(video.sync, i)[g] < |video.sync| &&
                  starts[g] == ScaleToUs(Time(video, Marked(video.sync, i)[g]), video.timescale)
    {
      TimeStep(video, i);
      if i == 0 || video.sync[i] {
        starts := starts + [ScaleToUs(decode, video.timescale)];
      }
      decode := decode + video.durations[i];
    }
  }

  method FindSyncStarts(sync: seq<bool>) returns (starts: seq<nat>)
    ensures starts == Marked(sync, |sync|)
  {
    starts := [];
    for i := 0 to |sync|
      invariant starts == Marked(sync, i)
    {
      if i == 0 || sync[i] {
        starts := starts + [i];
      }
    }
  }

  /** Moves on to the video group of this time. */
  method EnterGroup(videoStarts: seq<nat>, was: nat, time: nat) returns (group: nat, entered: bool)
    requires was < |videoStarts|
    ensures group == Reached(videoStarts, was, time)
    ensures entered <==> group != was
  {
    group, entered := was, false;
    while group + 1 < |videoStarts| && time >= videoStarts[group + 1]
      invariant was <= group < |videoStarts|
      invariant Reached(videoStarts, group, time) == Reached(videoStarts, was, time)
      invariant entered <==> group > was
    {
      group, entered := group + 1, true;
    }
  }

  /** The samples that enter a new video group; `us` are the times of the samples. */
  method FindEntering(us: seq<nat>, videoStarts: seq<nat>) returns (starts: seq<nat>)
    requires videoStarts != []
    ensures starts == Marked(Entering(us, videoStarts), |us|)
  {
    hide Reached, GroupAt, Marked, Entering;
    ghost var marks := Entering(us, videoStarts);
    var group := 0;
    starts := [];
    NoneMarked(marks);
    for i := 0 to |us|
      invariant starts == Marked(marks, i)
      invariant group == if i == 0 then 0 else GroupAt(us, videoStarts, i - 1)
    {
      MarkedNext(us, videoStarts, i);
      var entered: bool;
      group, entered := EnterGroup(videoStarts, group, us[i]);
      var start := i == 0 || entered;
      if start {
        starts := starts + [i];
      }
    }
  }

  lemma NoneMarked(marks: seq<bool>)
    ensures Marked(marks, 0) == []
  {
  }

  lemma MarkedNext(us: seq<nat>, videoStarts: seq<nat>, i: nat)
    requires i < |us| && videoStarts != []
    ensures var was := if i == 0 then 0 else GroupAt(us, videoStarts, i - 1);
      var marks := Entering(us, videoStarts);
      GroupAt(us, videoStarts, i) == Reached(videoStarts, was, us[i]) &&
      Marked(marks, i + 1) ==
      Marked(marks, i) + (if i == 0 || GroupAt(us, videoStarts, i) != was then [i] else [])
  {
    hide Reached;
  }

  method FindGopStarts(t: RemuxTrack, videoStarts: seq<nat>, times: seq<nat>) returns (starts: seq<nat>)
    requires |t.sync| == |t.durations| > 0
    requires times == seq(|t.durations| + 1, i requires 0 <= i <= |t.durations| => Time(t, i))
    ensures starts == GopStarts(t, videoStarts)
  {
    hide Time, ScaleToUs, Marked;
    starts := [];
    if t.video {
      starts := FindSyncStarts(t.sync);
      MarkedAreStarts(t.sync, |t.sync|);
    } else if videoStarts != [] {
      var us := seq(|t.durations|, i requires 0 <= i < |t.durations| => ScaleToUs(times[i], t.timescale));
      assert us == SampleTimesUs(t);
      starts := FindEntering(us, videoStarts);
      MarkedAreStarts(Entering(us, videoStarts), |us|);
    }
    if starts == [] || starts[0] != 0 {
      starts := [0] + starts;
    }
  }

  // ---- the pieces

  function GopEnd(starts: seq<nat>, g: nat, n: nat): nat {
    if g + 1 < |starts| then starts[g + 1] else n
  }

  /** One group of pictures from `at` on, 120 samples at a time. */
  function Chunked(begin: nat, at: nat, end: nat): seq<Piece>
    decreases if at < end then end - at else 0
  {
    if at >= end then []
    else [Piece(at, if end - at > MaxPerObject then MaxPerObject else end - at, at == begin)] +
         Chunked(begin, at + MaxPerObject, end)
  }

  function Pieces(starts: seq<nat>, g: nat, n: nat): seq<Piece>
    requires g <= |starts|
    decreases |starts| - g
  {
    if g == |starts| then []
    else Chunked(starts[g], starts[g], GopEnd(starts, g, n)) + Pieces(starts, g + 1, n)
  }

  /** The pieces take every sample from `from` to `to` once, in order, 1 to 120 at a time. */
  predicate Tiles(pieces: seq<Piece>, from: nat, to: nat) {
    if pieces == [] then from == to
    else pieces[0].first == from && 0 < pieces[0].count <= MaxPerObject &&
         Tiles(pieces[1..], from + pieces[0].count, to)
  }

  lemma {:induction false} TilesConcat(a: seq<Piece>, b: seq<Piece>, from: nat, mid: nat, to: nat)
    requires Tiles(a, from, mid) && Tiles(b, mid, to)
    ensures Tiles(a + b, from, to)
  {
    if a == [] {
      assert a + b == b;
    } else {
      assert (a + b)[1..] == a[1..] + b;
      TilesConcat(a[1..], b, from + a[0].count, mid, to);
    }
  }

  lemma {:induction false} ChunkedTiles(begin: nat, at: nat, end: nat)
    requires begin <= at <= end
    ensures Tiles(Chunked(begin, at, end), at, end)
    ensures forall p | p in Chunked(begin, at, end) :: (p.opens <==> p.first == begin) && at <= p.first < end
    decreases end - at
  {
    if at < end {
      var rest := Chunked(begin, at + MaxPerObject, end);
      if end - at > MaxPerObject {
        ChunkedTiles(begin, at + MaxPerObject, end);
      }
      assert Chunked(begin, at, end)[1..] == rest;
    }
  }

  lemma StartsRise(starts: seq<nat>, n: nat, g: nat, h: nat)
    requires Starts(starts, n) && g < h < |starts|
    ensures starts[g] < starts[h] < n
    decreases |starts| - g, h - g
  {
    if g + 1 < h {
      StartsRise(starts, n, g, h - 1);
    }
    if h < |starts| - 1 {
      StartsRise(starts, n, h, |starts| - 1);
    }
  }

  /** The pieces tile the track, and exactly the samples that start a group of pictures open one. */
  lemma {:induction false} PiecesTile(starts: seq<nat>, g: nat, n: nat)
    requires Starts(starts, n) && g <= |starts|
    ensures Tiles(Pieces(starts, g, n), if g < |starts| then starts[g] else n, n)
    ensures forall p | p in Pieces(starts, g, n) ::
      (p.opens <==> p.first in starts) && (if g < |starts| then starts[g] else n) <= p.first
    ensures forall h | g <= h < |starts| :: exists k | 0 <= k < |Pieces(starts, g, n)| ::
      Pieces(starts, g, n)[k].first == starts[h]
    decreases |starts| - g
  {
    if g < |starts| {
      var end := GopEnd(starts, g, n);
      if g + 1 < |starts| {
        StartsRise(starts, n, g, g + 1);
      }
      var chunk, rest := Chunked(starts[g], starts[g], end), Pieces(starts, g + 1, n);
      ChunkedTiles(starts[g], starts[g], end);
      PiecesTile(starts, g + 1, n);
      TilesConcat(chunk, rest, starts[g], end, n);
      forall p | p in chunk
        ensures p.opens <==> p.first in starts
      {
        NotWithin(starts, n, g, p.first);
      }
      forall h | g <= h < |starts|
        ensures exists k | 0 <= k < |chunk + rest| :: (chunk + rest)[k].first == starts[h]
      {
        if h == g {
          assert (chunk + rest)[0].first == starts[g];
        } else {
          var k :| 0 <= k < |rest| && rest[k].first == starts[h];
          assert (chunk + rest)[|chunk| + k].first == starts[h];
        }
      }
    }
  }

  /** Within a group of pictures only its first sample is a start. */
  lemma NotWithin(starts: seq<nat>, n: nat, g: nat, i: nat)
    requires Starts(starts, n) && g < |starts| && starts[g] <= i < GopEnd(starts, g, n)
    ensures i in starts <==> i == starts[g]
  {
    if i in starts {
      var h :| 0 <= h < |starts| && starts[h] == i;
      if h < g {
        StartsRise(starts, n, h, g);
      } else if h > g + 1 {
        StartsRise(starts, n, g + 1, h);
      }
    }
  }

  // ---- the objects

  function FragmentOf(t: RemuxTrack, file: seq<Byte>, group: nat, id: nat, p: Piece): CmafFragment
    requires t.Valid(file) && p.first + p.count <= |t.sizes| && p.count > 0
  {
    var base := Time(t, p.first);
    TimesOrdered(t, p.first, p.first + p.count);
    CmafFragment(group, id, ScaleToUs(base, t.timescale),
                 ScaleToUs(Time(t, p.first + p.count) - base, t.timescale),
                 PresentationUs(base, t.shifts[p.first], t.timescale),
                 if !t.video then 1 else if p.opens then 2 else 0,
                 ObjectBytes(t, file, p.first, p.count, base, id))
  }

  lemma {:induction false} TimesOrdered(t: RemuxTrack, i: nat, j: nat)
    requires i <= j <= |t.durations|
    ensures Time(t, i) <= Time(t, j)
  {
    if i < j {
      TimesOrdered(t, i, j - 1);
      TimeStep(t, j - 1);
    }
  }

  predicate Within(pieces: seq<Piece>, n: nat) {
    forall k | 0 <= k < |pieces| :: pieces[k].first + pieces[k].count <= n && pieces[k].count > 0
  }

  lemma {:induction false} TilesWithin(pieces: seq<Piece>, from: nat, to: nat)
    requires Tiles(pieces, from, to)
    ensures Within(pieces, to) && from <= to
  {
    if pieces != [] {
      TilesWithin(pieces[1..], from + pieces[0].count, to);
      assert forall k | 0 < k < |pieces| :: pieces[k] == pieces[1..][k - 1];
    }
  }

  /** The objects of the pieces, numbered from 0. */
  function Fragments(t: RemuxTrack, file: seq<Byte>, group: nat, pieces: seq<Piece>): (r: seq<CmafFragment>)
    requires t.Valid(file) && Within(pieces, |t.sizes|)
    ensures |r| == |pieces|
  {
    seq(|pieces|, k requires 0 <= k < |pieces| => FragmentOf(t, file, group, k, pieces[k]))
  }

  lemma FragmentsStep(t: RemuxTrack, file: seq<Byte>, group: nat, done: seq<Piece>, p: Piece)
    requires t.Valid(file) && Within(done, |t.sizes|) && p.first + p.count <= |t.sizes| && p.count > 0
    ensures Within(done + [p], |t.sizes|)
    ensures Fragments(t, file, group, done + [p]) ==
      Fragments(t, file, group, done) + [FragmentOf(t, file, group, |done|, p)]
  {
    hide FragmentOf;
  }

  function TrackPieces(t: RemuxTrack, videoStarts: seq<nat>): (r: seq<Piece>)
    requires |t.sync| == |t.durations|
    ensures Within(r, |t.durations|) && Tiles(r, 0, |t.durations|)
  {
    if |t.durations| == 0 then []
    else
      GopStartsAreStarts(t, videoStarts);
      PiecesTile(GopStarts(t, videoStarts), 0, |t.durations|);
      TilesWithin(Pieces(GopStarts(t, videoStarts), 0, |t.durations|), 0, |t.durations|);
      Pieces(GopStarts(t, videoStarts), 0, |t.durations|)
  }

  lemma GopStartsAreStarts(t: RemuxTrack, videoStarts: seq<nat>)
    requires |t.sync| == |t.durations| > 0
    ensures Starts(GopStarts(t, videoStarts), |t.durations|)
  {
    hide Marked;
    if t.video {
      MarkedAreStarts(t.sync, |t.sync|);
    } else if videoStarts != [] {
      MarkedAreStarts(Entering(SampleTimesUs(t), videoStarts), |t.durations|);
    }
  }

  lemma PiecesStep(starts: seq<nat>, g: nat, n: nat, done: seq<Piece>)
    requires g < |starts|
    ensures done + Pieces(starts, g, n) ==
      done + Chunked(starts[g], starts[g], GopEnd(starts, g, n)) + Pieces(starts, g + 1, n)
  {
  }

  lemma ChunkStep(begin: nat, at: nat, end: nat, done: seq<Piece>, rest: seq<Piece>)
    requires at < end
    ensures var p := Piece(at, if end - at > MaxPerObject then MaxPerObject else end - at, at == begin);
      done + Chunked(begin, at, end) + rest == done + [p] + Chunked(begin, at + MaxPerObject, end) + rest
  {
    var p := Piece(at, if end - at > MaxPerObject then MaxPerObject else end - at, at == begin);
    assert Chunked(begin, at, end) == [p] + Chunked(begin, at + MaxPerObject, end);
  }

  /** Appends the objects of one track to those of the tracks before it. */
  method AppendCoalescedFragments(segmented: seq<CmafFragment>, t: RemuxTrack, group: nat, videoStarts: seq<nat>,
                                  file: seq<Byte>) returns (all: seq<CmafFragment>)
    requires t.Valid(file)
    ensures all == segmented + Fragments(t, file, group, TrackPieces(t, videoStarts))
  {
    hide Time, Pieces, Chunked, ObjectBytes, Tiles, ScaleToUs, GopStarts, Fragments;
    all := segmented;
    var n := |t.sizes|;
    ghost var done: seq<Piece> := [];
    NoFragments(t, file, group);
    if n == 0 {
      return;
    }
    var times := DecodeTimes(t);
    var starts := FindGopStarts(t, videoStarts, times);
    GopStartsAreStarts(t, videoStarts);
    ghost var pieces := TrackPieces(t, videoStarts);
    assert [] + Pieces(starts, 0, n) == pieces;
    var id := 0;
    for g := 0 to |starts|
      invariant Within(done, n) && id == |done| && done + Pieces(starts, g, n) == pieces
      invariant all == segmented + Fragments(t, file, group, done)
    {
      var begin, end := starts[g], if g + 1 < |starts| then starts[g + 1] else n;
      ghost var rest := Pieces(starts, g + 1, n);
      PiecesStep(starts, g, n, done);
      if g + 1 < |starts| {
        StartsRise(starts, n, g, g + 1);
      }
      var at := begin;
      while at < end
        invariant begin <= at && end <= n && Within(done, n) && id == |done|
        invariant done + Chunked(begin, at, end) + rest == pieces
        invariant all == segmented + Fragments(t, file, group, done)
        decreases if at < end then end - at else 0
      {
        ChunkStep(begin, at, end, done, rest);
        var stop := if at + MaxPerObject < end then at + MaxPerObject else end;
        var count := stop - at;
        var base := times[at];
        TimesOrdered(t, at, stop);
        var duration := times[stop] - times[at];
        var payload := BuildRemuxedFragmentRange(t, file, at, count, base, id);
        var fragment := CmafFragment(group, id, ScaleToUs(base, t.timescale), ScaleToUs(duration, t.timescale),
                                     PresentationUs(base, t.shifts[at], t.timescale),
                                     if t.video then (if at == begin then 2 else 0) else 1, payload);
        ghost var p := Piece(at, count, at == begin);
        FragmentsStep(t, file, group, done, p);
        all := all + [fragment];
        done := done + [p];
        id := id + 1;
        at := at + MaxPerObject;
      }
      ChunkedOver(begin, at, end);
      assert done + [] + rest == done + rest;
    }
    NoPieces(starts, n);
    assert done + [] == done;
  }

  lemma ChunkedOver(begin: nat, at: nat, end: nat)
    requires at >= end
    ensures Chunked(begin, at, end) == []
  {
  }

  lemma NoPieces(starts: seq<nat>, n: nat)
    ensures Pieces(starts, |starts|, n) == []
  {
  }

  lemma NoFragments(t: RemuxTrack, file: seq<Byte>, group: nat)
    requires t.Valid(file)
    ensures Fragments(t, file, group, []) == []
  {
  }
}
