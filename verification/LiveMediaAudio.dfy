/**
 * Which tracks the live media queue takes for video, and what it promises the others:
 * a fragment of a track that never looks like video is lost only for its time.
 */
module LiveMediaAudio {
  import opened Bytes
  import opened LiveMedia
  import opened LiveMediaRuns

  /** This call pushes a media fragment of the track that looks like video: a keyframe, or SAP type 0 or 2. */
  predicate ShowsVideo(op: Op, t: string) {
    op.PushOp? && op.role.Media? && op.fragment.track == t &&
    (op.fragment.keyframe || op.fragment.sap == Some(0) || op.fragment.sap == Some(2))
  }

  /** A run after its first `k` calls. */
  ghost function At(q: Queue, ops: seq<Op>, k: nat): Run
    requires k <= |ops|
  {
    After(q, ops[..k])
  }

  lemma AtNext(q: Queue, ops: seq<Op>, k: nat)
    requires k < |ops|
    ensures At(q, ops, k + 1) == Step(At(q, ops, k), ops[k])
  {
    hide Step;
    assert ops[..k + 1][..k] == ops[..k];
  }

  // ---- which tracks are video

  lemma EnterKeepsTracks(q: Queue, e: Entry)
    ensures Enter(q, e).0.videoTracks == q.videoTracks
  {
    hide Fits;
  }

  lemma StepClassifies(r: Run, op: Op, t: string)
    ensures t in Step(r, op).q.videoTracks <==> t in r.q.videoTracks || (ShowsVideo(op, t) && !r.q.exceeded)
  {
    hide Enter;
    if op.PushOp? {
      var e := Numbered(r, op.fragment, op.role);
      EnterKeepsTracks(r.q, e);
      EnterKeepsTracks(Gate(r.q, e.fragment).0, e);
    }
  }

  /**
   * Over every run from an empty queue, a track is taken for video if and only if a
   * fragment of it that looks like video was pushed while the queue had not failed.
   */
  lemma {:induction false} VideoExactly(q: Queue, ops: seq<Op>, k: nat, t: string)
    requires Starts(q) && k <= |ops|
    ensures t in At(q, ops, k).q.videoTracks <==>
      exists i: nat :: i < k && ShowsVideo(ops[i], t) && !At(q, ops, i).q.exceeded
    decreases k
  {
    hide Step, ShowsVideo;
    if k == 0 {
      assert ops[..0] == [];
    } else {
      VideoExactly(q, ops, k - 1, t);
      AtNext(q, ops, k - 1);
      StepClassifies(At(q, ops, k - 1), ops[k - 1], t);
      if ShowsVideo(ops[k - 1], t) && !At(q, ops, k - 1).q.exceeded {
        assert exists i: nat :: i < k && ShowsVideo(ops[i], t) && !At(q, ops, i).q.exceeded;
      }
    }
  }

  // ---- tracks that are not

  /** Delivered, still queued, or below the boundary. */
  ghost predicate KeptOrLate(r: Run, i: nat)
    requires i < |r.pushed|
  {
    Alive(r, i) || Under(r.q, r.pushed[i])
  }

  ghost predicate AllKeptOrLate(r: Run, t: string, n: nat) {
    n <= |r.pushed| && forall i: nat | i < n && OnTrack(r.pushed[i], t) :: KeptOrLate(r, i)
  }

  lemma GateLetsAudio(q: Queue, f: Fragment)
    requires f.track !in q.videoTracks && f.track !in q.awaiting && !f.keyframe && f.sap != Some(0) && f.sap != Some(2)
    ensures Gate(q, f) == (q, q.boundary.Some? && f.start < q.boundary.value)
  {
  }

  /** What entering does to an entry of a track that is not video: kept, or below the new boundary. */
  lemma EnterKeepsAudio(q: Queue, e: Entry, x: Entry)
    requires q.Valid() && Admissible(q, e) && !q.exceeded && x in q.entries + [e] && x.role.Media?
    requires x.fragment.track !in q.videoTracks
    ensures var next := Enter(q, e).0;
      next.exceeded || x in next.entries || Under(next, x)
    ensures x in q.entries && Enter(q, e).0.exceeded ==> x in Enter(q, e).0.entries
  {
    hide Fits, KeyTimes;
    var entries := q.entries + [e];
    if !Fits(q.maxBytes, q.maxDuration, entries) && Recovery(q, entries).Some? {
      RetainedOffVideo(entries, Recovery(q, entries).value, q.videoTracks, x);
    }
  }

  lemma BoundaryRises(q: Queue, f: Fragment, role: Role)
    requires q.Valid() && ValidFragment(f)
    ensures var next := Push(q, f, role).0;
      next.Valid() && (q.boundary.Some? ==> next.boundary.Some? && q.boundary.value <= next.boundary.value)
  {
    hide Push;
    PushEffect(q, f, role);
  }

  /** One push keeps every older fragment of such a track, and its own unless the queue fails on it. */
  lemma PushKeepsAudio(r: Run, f: Fragment, role: Role, t: string, n: nat)
    requires r.q.Valid() && ValidFragment(f) && AllKeptOrLate(r, t, n)
    requires t !in r.q.videoTracks && t !in r.q.awaiting && !ShowsVideo(PushOp(f, role), t)
    ensures var next := Step(r, PushOp(f, role));
      next.q.Valid() && AllKeptOrLate(next, t, n) &&
      (n == |r.pushed| && !next.q.exceeded ==> AllKeptOrLate(next, t, n + 1))
  {
    hide Enter, Gate, Queue.Valid;
    var e := Numbered(r, f, role);
    var next := Step(r, PushOp(f, role));
    BoundaryRises(r.q, e.fragment, role);
    forall i: nat | i < n && OnTrack(r.pushed[i], t)
      ensures KeptOrLate(next, i)
    {
      assert next.pushed[i] == r.pushed[i];
      if r.pushed[i] in r.q.entries {
        QueuedStays(r.q, e.fragment, role, r.pushed[i], t);
      }
    }
    if n == |r.pushed| && !next.q.exceeded && OnTrack(e, t) {
      assert next.pushed[n] == e;
      OwnStays(r.q, e.fragment, t);
    }
  }

  lemma QueuedStays(q: Queue, f: Fragment, role: Role, x: Entry, t: string)
    requires q.Valid() && ValidFragment(f) && x in q.entries && OnTrack(x, t)
    requires t !in q.videoTracks && (role.Media? && f.track == t ==> !f.keyframe && f.sap != Some(0) && f.sap != Some(2))
    ensures var next := Push(q, f, role).0; x in next.entries || Under(next, x)
  {
    hide Enter, Queue.Valid;
    var e := Entry(f, role);
    GateEffect(q, f);
    GateAdds(q, f, t);
    if !q.exceeded {
      EnterIfLetIn(q, f, role);
      if role.Initialization? {
        EnterKeepsAudio(q, e, x);
      } else if !Gate(q, f).1 {
        EnterKeepsAudio(Gate(q, f).0, e, x);
      }
    }
  }

  lemma GateAdds(q: Queue, f: Fragment, t: string)
    ensures t in Gate(q, f).0.videoTracks ==> t in q.videoTracks || (f.track == t && IsVideoFragment(f))
  {
  }

  lemma OwnStays(q: Queue, f: Fragment, t: string)
    requires q.Valid() && ValidFragment(f) && f.track == t && !f.keyframe && f.sap != Some(0) && f.sap != Some(2)
    requires t !in q.videoTracks && t !in q.awaiting
    ensures var next := Push(q, f, Media).0; next.exceeded || Entry(f, Media) in next.entries || Under(next, Entry(f, Media))
  {
    hide Enter, Gate, Queue.Valid;
    GateLetsAudio(q, f);
    if !q.exceeded && !Gate(q, f).1 {
      EnterIfLetIn(q, f, Media);
      EnterKeepsAudio(q, Entry(f, Media), Entry(f, Media));
    }
  }

  lemma PopKeepsAudio(r: Run, t: string, n: nat)
    requires r.q.Valid() && AllKeptOrLate(r, t, n)
    ensures Step(r, PopOp).q.Valid() && AllKeptOrLate(Step(r, PopOp), t, n)
  {
    hide Queue.Valid;
    PopKeepsValid(r.q);
    if r.q.entries != [] {
      assert r.q.entries == [r.q.entries[0]] + r.q.entries[1..];
    }
  }

  lemma AwaitingIsVideo(q: Queue)
    requires q.Valid()
    ensures q.awaiting <= q.videoTracks
  {
  }

  /**
   * Over every run from an empty queue: a track none of whose fragments looks like video
   * is never taken for video and never waits for a keyframe; and whatever was pushed on
   * it by a time when the queue had not failed is later delivered, still queued, or
   * below the boundary.
   */
  lemma {:induction false} AudioIsLostForItsTime(q: Queue, ops: seq<Op>, t: string, k: nat, n: nat)
    requires Starts(q) && ValidOps(ops) && n <= k <= |ops| && !At(q, ops, n).q.exceeded
    requires forall i: nat | i < |ops| :: !ShowsVideo(ops[i], t)
    ensures var r := At(q, ops, k);
      r.q.Valid() && t !in r.q.videoTracks && t !in r.q.awaiting &&
      AllKeptOrLate(r, t, |At(q, ops, n).pushed|) && At(q, ops, n).pushed <= r.pushed
    decreases k
  {
    hide Step, ShowsVideo, Queue.Valid, AllKeptOrLate;
    if k == 0 {
      assert ops[..0] == [];
      NothingPushed(q, t);
    } else {
      AtNext(q, ops, k - 1);
      var r, op := At(q, ops, k - 1), ops[k - 1];
      if n < k {
        AudioIsLostForItsTime(q, ops, t, k - 1, n);
        StepKeepsAudio(r, op, t, |At(q, ops, n).pushed|);
      } else {
        NotFailedBefore(q, ops, k - 1);
        AudioIsLostForItsTime(q, ops, t, k - 1, k - 1);
        StepKeepsAudio(r, op, t, |r.pushed|);
      }
      VideoExactly(q, ops, k, t);
      AwaitingIsVideo(At(q, ops, k).q);
    }
  }

  lemma NothingPushed(q: Queue, t: string)
    requires Starts(q)
    ensures var r := After(q, []); r.q == q && r.pushed == [] && q.Valid() && AllKeptOrLate(r, t, 0)
  {
  }

  lemma NotFailedBefore(q: Queue, ops: seq<Op>, k: nat)
    requires k < |ops| && !At(q, ops, k + 1).q.exceeded
    ensures !At(q, ops, k).q.exceeded
  {
    AtNext(q, ops, k);
  }

  lemma StepKeepsAudio(r: Run, op: Op, t: string, n: nat)
    requires r.q.Valid() && (op.PushOp? ==> ValidFragment(op.fragment)) && AllKeptOrLate(r, t, n)
    requires t !in r.q.videoTracks && t !in r.q.awaiting && !ShowsVideo(op, t)
    ensures var next := Step(r, op);
      next.q.Valid() && AllKeptOrLate(next, t, n) && r.pushed <= next.pushed &&
      (n == |r.pushed| && !next.q.exceeded ==> AllKeptOrLate(next, t, |next.pushed|))
  {
    hide AllKeptOrLate, Queue.Valid, Push, Pop;
    match op {
      case PushOp(f, role) => PushKeepsAudio(r, f, role, t, n);
      case PopOp => PopKeepsAudio(r, t, n);
    }
  }
}
