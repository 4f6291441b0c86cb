/**
 * Where exactly a coalesced track is cut, and what times its objects carry, said on the
 * samples of the track and the video groups alone.
 */
module CoalescePieces {
  import opened Bytes
  import opened CmafObject
  import opened Coalesce
  import opened CoalesceRuns
  import LocEncoder
  import LocFrames

  // ---- where groups of pictures start

  /** A video track starts one at each sync sample, any other at each sample that is the first in a video group. */
  ghost predicate StartsAt(t: RemuxTrack, videoStarts: seq<nat>, i: nat)
    requires |t.sync| == |t.durations| && i < |t.durations|
  {
    i == 0 ||
    if t.video then t.sync[i]
    else exists v | 0 < v < |videoStarts| :: SampleTimesUs(t)[i - 1] < videoStarts[v] <= SampleTimesUs(t)[i]
  }

  /** The group under way is the last one that has started. */
  lemma GroupMoves(times: seq<nat>, starts: seq<nat>, i: nat)
    requires 0 < i < |times| && starts != [] && Sorted(times) && Sorted(starts)
    ensures GroupAt(times, starts, i) != GroupAt(times, starts, i - 1) <==>
      exists v | 0 < v < |starts| :: times[i - 1] < starts[v] <= times[i]
  {
    hide Reached;
    var before, now := GroupAt(times, starts, i - 1), GroupAt(times, starts, i);
    GroupReached(times, starts, i - 1);
    GroupReached(times, starts, i);
    if before != now {
      assert before < now;
      assert times[i - 1] < starts[before + 1] <= starts[now] <= times[i];
    }
    if v :| 0 < v < |starts| && times[i - 1] < starts[v] <= times[i] {
      assert before < v;
      assert now >= v;
    }
  }

  lemma StartsExactly(t: RemuxTrack, videoStarts: seq<nat>, i: nat)
    requires |t.sync| == |t.durations| && i < |t.durations|
    requires t.video || (Sorted(SampleTimesUs(t)) && Sorted(videoStarts))
    ensures i in GopStarts(t, videoStarts) <==> StartsAt(t, videoStarts, i)
  {
    hide Marked, SampleTimesUs, GroupAt;
    var n := |t.durations|;
    if t.video {
      MarkedAreStarts(t.sync, n);
    } else if videoStarts != [] {
      var times := SampleTimesUs(t);
      MarkedAreStarts(Entering(times, videoStarts), n);
      if i > 0 {
        GroupMoves(times, videoStarts, i);
      }
    }
  }

  // ---- where it is cut

  /** An object begins with this sample. */
  ghost predicate Cut(pieces: seq<Piece>, i: nat) {
    exists p | p in pieces :: p.first == i
  }

  /** The group of pictures that sample `i` is in starts at `s`. */
  ghost predicate InGopFrom(starts: seq<nat>, s: nat, i: nat) {
    s in starts && s <= i && forall h | h in starts :: h <= s || h > i
  }

  lemma {:induction false} ChunkedCuts(begin: nat, at: nat, end: nat, i: nat)
    requires begin <= at <= end
    ensures Cut(Chunked(begin, at, end), i) <==> at <= i < end && (i - at) % 120 == 0
    decreases end - at
  {
    if at < end {
      var rest := Chunked(begin, at + MaxPerObject, end);
      if at + MaxPerObject <= end {
        ChunkedCuts(begin, at + MaxPerObject, end, i);
      }
      OneMoreCut(Chunked(begin, at, end), rest, i);
      if i >= at + 120 {
        assert (i - at) % 120 == (i - at - 120) % 120;
      }
    }
  }

  lemma OneMoreCut(pieces: seq<Piece>, rest: seq<Piece>, i: nat)
    requires pieces != [] && pieces[1..] == rest
    ensures Cut(pieces, i) <==> pieces[0].first == i || Cut(rest, i)
  {
    assert pieces == [pieces[0]] + rest;
  }

  lemma CutConcat(a: seq<Piece>, b: seq<Piece>, i: nat)
    ensures Cut(a + b, i) <==> Cut(a, i) || Cut(b, i)
  {
  }

  lemma {:induction false} PiecesCut(starts: seq<nat>, g: nat, n: nat, i: nat)
    requires Starts(starts, n) && g <= |starts|
    ensures Cut(Pieces(starts, g, n), i) <==>
      exists h | g <= h < |starts| :: starts[h] <= i < GopEnd(starts, h, n) && (i - starts[h]) % 120 == 0
    decreases |starts| - g
  {
    if g < |starts| {
      var end := GopEnd(starts, g, n);
      if g + 1 < |starts| {
        StartsRise(starts, n, g, g + 1);
      }
      PiecesCut(starts, g + 1, n, i);
      ChunkedCuts(starts[g], starts[g], end, i);
      CutConcat(Chunked(starts[g], starts[g], end), Pieces(starts, g + 1, n), i);
    }
  }

  /** Sample `i` of group `h` is one of no other group. */
  lemma GopIs(starts: seq<nat>, n: nat, h: nat, i: nat)
    requires Starts(starts, n) && h < |starts| && i < n
    ensures starts[h] <= i < GopEnd(starts, h, n) <==> InGopFrom(starts, starts[h], i)
  {
    forall k | 0 <= k < |starts|
      ensures k < h ==> starts[k] < starts[h]
      ensures k > h ==> starts[k] >= starts[h + 1]
    {
      if k < h {
        StartsRise(starts, n, k, h);
      } else if k > h + 1 {
        StartsRise(starts, n, h + 1, k);
      }
    }
    if h + 1 < |starts| {
      assert starts[h + 1] in starts;
    }
  }

  /**
   * An object begins with a sample exactly when the sample is a whole number of times 120
   * behind the start of its group of pictures.
   */
  lemma CutsExactly(t: RemuxTrack, videoStarts: seq<nat>, i: nat)
    requires |t.sync| == |t.durations| && i < |t.durations|
    ensures Cut(TrackPieces(t, videoStarts), i) <==>
      exists s: nat :: InGopFrom(GopStarts(t, videoStarts), s, i) && (i - s) % 120 == 0
  {
    hide GopStarts, Pieces, GopEnd, InGopFrom;
    var n, starts := |t.durations|, GopStarts(t, videoStarts);
    GopStartsAreStarts(t, videoStarts);
    PiecesCut(starts, 0, n, i);
    if h :| 0 <= h < |starts| && starts[h] <= i < GopEnd(starts, h, n) && (i - starts[h]) % 120 == 0 {
      GopIs(starts, n, h, i);
    }
    if s: nat :| InGopFrom(starts, s, i) && (i - s) % 120 == 0 {
      GopOf(starts, s, i);
      var h :| 0 <= h < |starts| && starts[h] == s;
      GopIs(starts, n, h, i);
    }
  }

  lemma GopOf(starts: seq<nat>, s: nat, i: nat)
    requires InGopFrom(starts, s, i)
    ensures s in starts
  {
  }

  // ---- times

  /** Whole microseconds of these ticks, whose product with a million is kept to 64 bits; 0 without a timescale. */
  ghost predicate InMicroseconds(us: nat, ticks: nat, timescale: nat) {
    if timescale == 0 then us == 0
    else us * timescale <= ticks * 1000000 % TwoTo64 < us * timescale + timescale
  }

  lemma ScaledExactly(ticks: nat, timescale: nat, us: nat)
    ensures ScaleToUs(ticks, timescale) == us <==> InMicroseconds(us, ticks, timescale)
  {
    hide LocEncoder.Quotient, LocEncoder.Remainder;
    if timescale > 0 {
      var n := ticks * 1000000 % TwoTo64;
      LocEncoder.Divides(n, timescale);
      LocFrames.FloorIs(n, timescale, LocEncoder.Quotient(n, timescale), LocEncoder.Remainder(n, timescale), us);
    }
  }

  /** When its first sample is shown; not before zero. */
  function Shown(decode: nat, shift: int): nat {
    if decode + shift < 0 then 0 else decode + shift
  }

  /** The times of an object of these samples. */
  ghost predicate TimesAre(t: RemuxTrack, p: Piece, o: CmafFragment)
    requires p.first + p.count <= |t.durations| && p.first < |t.shifts|
  {
    var decode, length := Sum(t.durations[..p.first]), Sum(t.durations[p.first..p.first + p.count]);
    decode >= 0 && length >= 0 && InMicroseconds(o.startUs, decode, t.timescale) &&
    InMicroseconds(o.durationUs, length, t.timescale) &&
    InMicroseconds(o.earliestUs, Shown(decode, t.shifts[p.first]), t.timescale)
  }

  lemma TimesOf(t: RemuxTrack, file: seq<Byte>, group: nat, id: nat, p: Piece)
    requires t.Valid(file) && p.first + p.count <= |t.sizes| && p.count > 0
    ensures TimesAre(t, p, FragmentOf(t, file, group, id, p))
  {
    hide ScaleToUs, ObjectBytes, InMicroseconds;
    var decode, length := Time(t, p.first), Time(t, p.first + p.count) - Time(t, p.first);
    TimesOrdered(t, p.first, p.first + p.count);
    Lasts(t, p.first, p.count);
    ScaledExactly(decode, t.timescale, ScaleToUs(decode, t.timescale));
    ScaledExactly(length, t.timescale, ScaleToUs(length, t.timescale));
    var shown := Shown(decode, t.shifts[p.first]);
    ScaledExactly(shown, t.timescale, ScaleToUs(shown, t.timescale));
  }

  /**
   * Each object starts with the durations of the samples before it, lasts those of its own
   * samples, and is first shown when its first sample is.
   */
  lemma ObjectTimes(t: RemuxTrack, file: seq<Byte>, group: nat, videoStarts: seq<nat>, k: nat)
    requires t.Valid(file) && k < |TrackPieces(t, videoStarts)|
    ensures var pieces := TrackPieces(t, videoStarts);
      pieces[k].first + pieces[k].count <= |t.durations| && pieces[k].first < |t.shifts| &&
      TimesAre(t, pieces[k], Fragments(t, file, group, pieces)[k])
  {
    hide TrackPieces, Tiles, TimesAre, FragmentOf;
    TilesAt(TrackPieces(t, videoStarts), 0, |t.sizes|, k);
    TimesOf(t, file, group, k, TrackPieces(t, videoStarts)[k]);
  }

  lemma Lasts(t: RemuxTrack, first: nat, count: nat)
    requires first + count <= |t.durations|
    ensures Time(t, first + count) - Time(t, first) == Sum(t.durations[first..first + count])
  {
    assert t.durations[..first + count] == t.durations[..first] + t.durations[first..first + count];
    SumAppend(t.durations[..first], t.durations[first..first + count]);
  }

  /** Times stay in order as long as the whole track keeps below the 64-bit wrap. */
  lemma TimesInOrder(t: RemuxTrack)
    requires Time(t, |t.durations|) * 1000000 < TwoTo64
    ensures Sorted(SampleTimesUs(t))
  {
    hide Time;
    var us := SampleTimesUs(t);
    forall i, j | 0 <= i <= j < |us|
      ensures us[i] <= us[j]
    {
      TimesOrdered(t, i, j);
      TimesOrdered(t, j, |t.durations|);
      ScaleGrows(Time(t, i), Time(t, j), t.timescale);
    }
  }

  lemma ScaleGrows(a: nat, b: nat, timescale: nat)
    requires a <= b && b * 1000000 < TwoTo64
    ensures ScaleToUs(a, timescale) <= ScaleToUs(b, timescale)
  {
    hide LocEncoder.Quotient, LocEncoder.Remainder;
    if timescale > 0 {
      var m, n := a * 1000000, b * 1000000;
      LocEncoder.Divides(m, timescale);
      LocEncoder.Divides(n, timescale);
      InOrder(m, n, timescale, LocEncoder.Quotient(m, timescale), LocEncoder.Quotient(n, timescale));
    }
  }

  lemma InOrder(m: nat, n: nat, t: nat, x: nat, y: nat)
    requires m <= n && x * t <= m && n < y * t + t
    ensures x <= y
  {
    if y < x {
      LocFrames.Times(y + 1, x, t);
    }
  }
}
