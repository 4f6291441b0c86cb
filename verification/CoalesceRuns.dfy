/** What the objects of a coalesced track are together: nothing lost, nothing doubled, and random access where promised. */
module CoalesceRuns {
  import opened Bytes
  import opened CmafObject
  import opened Coalesce

  // ---- pieces as a partition

  lemma {:induction false} TilesAt(pieces: seq<Piece>, from: nat, to: nat, k: nat)
    requires Tiles(pieces, from, to) && k < |pieces|
    ensures from <= pieces[k].first && 0 < pieces[k].count <= MaxPerObject && pieces[k].first + pieces[k].count <= to
    ensures k == 0 ==> pieces[k].first == from
    ensures pieces[k].first + pieces[k].count == (if k + 1 < |pieces| then pieces[k + 1].first else to)
    ensures from < to
  {
    TilesWithin(pieces, from, to);
    if k > 0 {
      TilesAt(pieces[1..], from + pieces[0].count, to, k - 1);
    } else if |pieces| > 1 {
      TilesAt(pieces[1..], from + pieces[0].count, to, 0);
    }
  }

  /**
   * The objects of a track: consecutive ids from 0 in one group, each taking up where
   * the one before left off, from the first sample to the last, 1 to 120 at a time.
   */
  lemma ObjectsPartition(t: RemuxTrack, file: seq<Byte>, group: nat, videoStarts: seq<nat>, k: nat)
    requires t.Valid(file) && k < |TrackPieces(t, videoStarts)|
    ensures var pieces := TrackPieces(t, videoStarts);
      var all := Fragments(t, file, group, pieces);
      all[k].group == group && all[k].id == k && 1 <= pieces[k].count <= 120 &&
      (k == 0 ==> pieces[k].first == 0) &&
      pieces[k].first + pieces[k].count == (if k + 1 < |pieces| then pieces[k + 1].first else |t.sizes|) &&
      all[k].payload == ObjectBytes(t, file, pieces[k].first, pieces[k].count, Time(t, pieces[k].first), k)
  {
    hide Tiles, TrackPieces, ObjectBytes, Time;
    TilesAt(TrackPieces(t, videoStarts), 0, |t.sizes|, k);
  }

  // ---- content and time add up

  lemma {:induction false} MediaSplit(t: RemuxTrack, file: seq<Byte>, first: nat, a: nat, b: nat)
    requires t.Valid(file) && first + a + b <= |t.sizes|
    ensures Media(t, file, first, a + b) == Media(t, file, first, a) + Media(t, file, first + a, b)
  {
    if b > 0 {
      MediaSplit(t, file, first, a, b - 1);
    } else {
      assert Media(t, file, first, a) + [] == Media(t, file, first, a);
    }
  }

  /** The mdat payloads of some objects, one after the other. */
  function MediaOf(t: RemuxTrack, file: seq<Byte>, pieces: seq<Piece>): seq<Byte>
    requires t.Valid(file) && Within(pieces, |t.sizes|)
  {
    if pieces == [] then []
    else Media(t, file, pieces[0].first, pieces[0].count) + MediaOf(t, file, pieces[1..])
  }

  /** The ticks some objects last, in all. */
  function TicksOf(t: RemuxTrack, pieces: seq<Piece>): int
    requires Within(pieces, |t.durations|)
  {
    if pieces == [] then 0
    else Time(t, pieces[0].first + pieces[0].count) - Time(t, pieces[0].first) + TicksOf(t, pieces[1..])
  }

  lemma {:induction false} TilesAddUp(t: RemuxTrack, file: seq<Byte>, pieces: seq<Piece>, from: nat)
    requires t.Valid(file) && Tiles(pieces, from, |t.sizes|) && Within(pieces, |t.sizes|) && from <= |t.sizes|
    ensures MediaOf(t, file, pieces) == Media(t, file, from, |t.sizes| - from)
    ensures TicksOf(t, pieces) == Time(t, |t.sizes|) - Time(t, from)
  {
    hide Media, Time;
    if pieces != [] {
      var n := pieces[0].count;
      TilesWithin(pieces[1..], from + n, |t.sizes|);
      TilesAddUp(t, file, pieces[1..], from + n);
      MediaSplit(t, file, from, n, |t.sizes| - from - n);
    } else {
      MediaSplit(t, file, from, 0, 0);
      assert Media(t, file, from, 0) + Media(t, file, from, 0) == Media(t, file, from, 0);
    }
  }

  /** Together the objects carry the samples' bytes, each once and in order, and last as long as the track. */
  lemma ObjectsAddUp(t: RemuxTrack, file: seq<Byte>, videoStarts: seq<nat>)
    requires t.Valid(file)
    ensures MediaOf(t, file, TrackPieces(t, videoStarts)) == Media(t, file, 0, |t.sizes|)
    ensures TicksOf(t, TrackPieces(t, videoStarts)) == Sum(t.durations)
  {
    hide TrackPieces, Tiles, MediaOf, TicksOf, Media;
    TilesAddUp(t, file, TrackPieces(t, videoStarts), 0);
    assert t.durations[..|t.durations|] == t.durations && t.durations[..0] == [];
  }

  // ---- random access

  /**
   * Of a video track, the objects with SAP type 2 are those that begin at a sync
   * sample (or the first sample), every other object has SAP type 0, and every sync
   * sample begins an object. Every object of any other track has SAP type 1.
   */
  lemma RandomAccess(t: RemuxTrack, file: seq<Byte>, group: nat, videoStarts: seq<nat>, i: nat)
    requires t.Valid(file) && i < |t.sizes|
    ensures var pieces := TrackPieces(t, videoStarts);
      var all := Fragments(t, file, group, pieces);
      (forall k | 0 <= k < |pieces| ::
         all[k].sap == (if !t.video then 1 else if pieces[k].first == 0 || t.sync[pieces[k].first] then 2 else 0)) &&
      (t.video ==> (i == 0 || t.sync[i] <==> exists k | 0 <= k < |pieces| :: pieces[k].first == i && all[k].sap == 2))
  {
    hide ObjectBytes, Time, Tiles, Marked, Pieces, ScaleToUs, PresentationUs;
    var starts, pieces := GopStarts(t, videoStarts), TrackPieces(t, videoStarts);
    var all := Fragments(t, file, group, pieces);
    GopStartsAreStarts(t, videoStarts);
    MarkedAreStarts(t.sync, |t.sync|);
    PiecesTile(starts, 0, |t.sizes|);
    forall k | 0 <= k < |pieces|
      ensures all[k].sap == if !t.video then 1 else if pieces[k].first == 0 || t.sync[pieces[k].first] then 2 else 0
    {
      assert pieces[k] in pieces;
    }
    if t.video && (i == 0 || t.sync[i]) {
      assert i in starts;
      var h :| 0 <= h < |starts| && starts[h] == i;
      assert exists k | 0 <= k < |pieces| :: pieces[k].first == starts[h];
    }
  }

  // ---- audio objects follow the video groups

  predicate Sorted(s: seq<nat>) {
    forall i, j | 0 <= i <= j < |s| :: s[i] <= s[j]
  }

  lemma {:induction false} ReachedStops(starts: seq<nat>, v: nat, time: nat)
    requires v < |starts|
    ensures var r := Reached(starts, v, time);
      (r + 1 < |starts| ==> starts[r + 1] > time) && (r == v || starts[r] <= time)
    decreases |starts| - v
  {
    if v + 1 < |starts| && time >= starts[v + 1] {
      ReachedStops(starts, v + 1, time);
    }
  }

  lemma {:induction false} GroupReached(times: seq<nat>, starts: seq<nat>, i: nat)
    requires i < |times| && starts != [] && Sorted(times)
    ensures var r := GroupAt(times, starts, i);
      (r + 1 < |starts| ==> starts[r + 1] > times[i]) && (r == 0 || starts[r] <= times[i])
  {
    if i > 0 {
      GroupReached(times, starts, i - 1);
      ReachedStops(starts, GroupAt(times, starts, i - 1), times[i]);
    } else {
      ReachedStops(starts, 0, times[0]);
    }
  }

  /** From one entry to the next the group under way stays the same. */
  lemma {:induction false} SameGroup(times: seq<nat>, starts: seq<nat>, i: nat, j: nat)
    requires i <= j < |times| && starts != []
    requires forall k | i < k <= j :: !Entering(times, starts)[k]
    ensures GroupAt(times, starts, i) == GroupAt(times, starts, j)
  {
    if i < j {
      SameGroup(times, starts, i, j - 1);
      assert !Entering(times, starts)[j];
    }
  }

  lemma {:induction false} PieceInGop(pieces: seq<Piece>, starts: seq<nat>, from: nat, n: nat, k: nat, j: nat)
    requires Tiles(pieces, from, n) && k < |pieces| && pieces[k].first < j < pieces[k].first + pieces[k].count
    requires forall p | p in pieces :: p.opens <==> p.first in starts
    requires j in starts ==> exists m | 0 <= m < |pieces| :: pieces[m].first == j
    ensures j !in starts
  {
    if j in starts {
      var m :| 0 <= m < |pieces| && pieces[m].first == j;
      if m < k {
        FirstsRise(pieces, from, n, m, k);
      } else if m > k {
        FirstsRise(pieces, from, n, k, m);
      }
    }
  }

  lemma {:induction false} FirstsRise(pieces: seq<Piece>, from: nat, n: nat, k: nat, m: nat)
    requires Tiles(pieces, from, n) && k < m < |pieces|
    ensures pieces[k].first + pieces[k].count <= pieces[m].first
    decreases m - k
  {
    TilesAt(pieces, from, n, k);
    if k + 1 < m {
      TilesAt(pieces, from, n, k + 1);
      FirstsRise(pieces, from, n, k + 1, m);
    }
  }

  /**
   * No object of an audio track runs across the start of a video group: when its
   * first sample is before it, so are all its samples. Times are in microseconds,
   * and neither list of times goes back.
   */
  lemma AudioFollowsVideo(t: RemuxTrack, videoStarts: seq<nat>, k: nat, j: nat, v: nat)
    requires |t.sync| == |t.durations| && !t.video && videoStarts != []
    requires Sorted(SampleTimesUs(t)) && Sorted(videoStarts)
    requires k < |TrackPieces(t, videoStarts)| && 0 < v < |videoStarts|
    requires var p := TrackPieces(t, videoStarts)[k]; p.first <= j < p.first + p.count
    ensures SampleTimesUs(t)[TrackPieces(t, videoStarts)[k].first] < videoStarts[v] ==>
      SampleTimesUs(t)[j] < videoStarts[v]
  {
    hide Tiles, Marked, Pieces, ScaleToUs, Time;
    var n, times := |t.durations|, SampleTimesUs(t);
    var marks := Entering(times, videoStarts);
    var starts, pieces := GopStarts(t, videoStarts), TrackPieces(t, videoStarts);
    var first := pieces[k].first;
    MarkedAreStarts(marks, n);
    GopStartsAreStarts(t, videoStarts);
    PiecesTile(starts, 0, n);
    forall i | first < i <= j
      ensures !marks[i]
    {
      if i in starts {
        var h :| 0 <= h < |starts| && starts[h] == i;
        assert exists m | 0 <= m < |pieces| :: pieces[m].first == starts[h];
      }
      PieceInGop(pieces, starts, 0, n, k, i);
    }
    SameGroup(times, videoStarts, first, j);
    GroupReached(times, videoStarts, first);
    GroupReached(times, videoStarts, j);
  }
}
