/**
 * LOC objects from encoder to subscriber: samples of several tracks are encoded,
 * queued, and whole groups dropped when the queue is over its bounds. Locked
 * methods are atomic steps; the track set is fixed.
 */
module LocIngest {
  import opened Bytes
  import opened LocEncoder
  import opened ObjectProperties

  const MaxQueuedBytes := 16777216
  const MaxGroupId := 0x3FFF_FFFF_FFFF_FFFF

  /** A queued object is a fragment under its published group. */
  function Track(f: Fragment): string {
    f.sample.track
  }

  function QueuedBytes(q: seq<Fragment>): nat {
    if q == [] then 0 else QueuedBytes(q[..|q| - 1]) + |q[|q| - 1].sample.bytes|
  }

  predicate InGroup(f: Fragment, t: string, g: nat) {
    Track(f) == t && f.group == g
  }

  /** `erase_if` of one track's group. */
  function Erase(q: seq<Fragment>, t: string, g: nat): (r: seq<Fragment>)
    ensures |r| <= |q|
    ensures forall f | f in r :: f in q && !InGroup(f, t, g)
  {
    if q == [] then []
    else
      var n := |q| - 1;
      Erase(q[..n], t, g) + if InGroup(q[n], t, g) then [] else [q[n]]
  }

  lemma {:induction false} EraseShrinks(q: seq<Fragment>, t: string, g: nat)
    requires exists f | f in q :: InGroup(f, t, g)
    ensures |Erase(q, t, g)| < |q|
  {
    var n := |q| - 1;
    if !InGroup(q[n], t, g) {
      EraseShrinks(q[..n], t, g);
    }
  }

  predicate Over(q: seq<Fragment>, depth: nat) {
    |q| > depth || QueuedBytes(q) > MaxQueuedBytes
  }

  /** The shed loop: while over, the group at the front goes, and its number is remembered. */
  function Shed(q: seq<Fragment>, dropped: map<string, nat>, depth: nat): (seq<Fragment>, map<string, nat>)
    decreases |q|
  {
    if q == [] || !Over(q, depth) then (q, dropped)
    else
      var t, g := Track(q[0]), q[0].group;
      assert InGroup(q[0], t, g);
      EraseShrinks(q, t, g);
      Shed(Erase(q, t, g), dropped[t := g], depth)
  }

  predicate Refused(dropped: map<string, nat>, t: string, g: nat) {
    t in dropped && g <= dropped[t]
  }

  datatype Session = Session(depth: nat, initial: nat, encoders: map<string, Encoder>, queue: seq<Fragment>,
                             dropped: map<string, nat>, failed: bool)

  function Enqueue(s: Session, f: Fragment): Session {
    if Refused(s.dropped, Track(f), f.group) then s
    else
      var (queue, dropped) := Shed(s.queue + [f], s.dropped, s.depth);
      s.(queue := queue, dropped := dropped)
  }

  function Break(s: Session): Session {
    s.(queue := [], failed := true)
  }

  function IngestOne(s: Session, sample: Sample): Session
    requires sample.Bounded()
  {
    if sample.track !in s.encoders then s
    else
      var (next, made) := EncodeOne(s.encoders[sample.track], sample);
      var seen := s.(encoders := s.encoders[sample.track := next]);
      match made
      case Threw => Break(seen)
      case Skipped => seen
      case Object(f) =>
        if f.group + s.initial > MaxGroupId then Break(seen) else Enqueue(seen, f.(group := f.group + s.initial))
  }

  function TakeOne(s: Session): (Session, Option<Fragment>) {
    if s.failed || s.queue == [] then (s, None) else (s.(queue := s.queue[1..]), Some(s.queue[0]))
  }

  // ---- the class

  class LiveDashIngestSession {
    const depth: nat
    const initial: nat
    var encoders: map<string, Encoder>
    var queue: seq<Fragment>
    var dropped: map<string, nat>
    var failed: bool

    ghost function Model(): Session
      reads this
    {
      Session(depth, initial, encoders, queue, dropped, failed)
    }

    constructor (depth: nat, initial: nat, encoders: map<string, Encoder>)
      ensures Model() == Session(if depth == 0 then 1 else depth, initial, encoders, [], map[], false)
    {
      this.depth := if depth == 0 then 1 else depth;
      this.initial, this.encoders := initial, encoders;
      queue, dropped, failed := [], map[], false;
    }

    method ByteCount() returns (size: nat)
      ensures size == QueuedBytes(queue)
    {
      size := 0;
      for i := 0 to |queue|
        invariant size == QueuedBytes(queue[..i])
      {
        assert queue[..i + 1][..i] == queue[..i];
        size := size + |queue[i].sample.bytes|;
      }
      assert queue[..|queue|] == queue;
    }

    method EraseGroup(t: string, g: nat)
      modifies `queue
      ensures queue == Erase(old(queue), t, g)
    {
      var kept: seq<Fragment> := [];
      for i := 0 to |queue|
        invariant kept == Erase(queue[..i], t, g)
      {
        assert queue[..i + 1][..i] == queue[..i];
        if !(Track(queue[i]) == t && queue[i].group == g) {
          kept := kept + [queue[i]];
        }
      }
      assert queue[..|queue|] == queue;
      queue := kept;
    }

    /** The size check here never fires: the encoder already refused such a sample. */
    method EnqueueObject(f: Fragment)
      requires |f.sample.bytes| <= MaxSample && depth > 0
      modifies `queue, `dropped
      ensures Model() == Enqueue(old(Model()), f)
      ensures Refused(old(dropped), Track(f), f.group) || !Over(queue, depth)
    {
      hide Shed, Erase, QueuedBytes;
      if Track(f) in dropped && f.group <= dropped[Track(f)] {
        return;
      }
      if |f.sample.bytes| > MaxSample {
        assert false;
      }
      queue := queue + [f];
      var bytes := ByteCount();
      ghost var goal := Shed(queue, dropped, depth);
      while |queue| > depth || bytes > MaxQueuedBytes
        invariant bytes == QueuedBytes(queue) && Shed(queue, dropped, depth) == goal
        decreases |queue|
      {
        NothingQueued();
        var t, g := Track(queue[0]), queue[0].group;
        ShedTurn(queue, dropped, depth);
        dropped := dropped[t := g];
        EraseGroup(t, g);
        bytes := ByteCount();
      }
      ShedStops(queue, dropped, depth);
      assert Model() == old(Model()).(queue := goal.0, dropped := goal.1);
      assert !Refused(old(dropped), Track(f), f.group);
    }

    method IngestSample(sample: Sample)
      requires sample.Bounded() && depth > 0
      modifies this
      ensures Model() == IngestOne(old(Model()), sample)
    {
      hide EncodeOne, Enqueue;
      if sample.track !in encoders {
        return;
      }
      var (next, made) := EncodeOne(encoders[sample.track], sample);
      MadeIsSmall(encoders[sample.track], sample);
      encoders := encoders[sample.track := next];
      match made
      case Threw =>
        queue, failed := [], true;
      case Skipped =>
      case Object(f) =>
        if f.group + initial > MaxGroupId {
          queue, failed := [], true;
        } else {
          EnqueueObject(f.(group := f.group + initial));
        }
    }

    method TryNextObject() returns (taken: Option<Fragment>)
      modifies `queue
      ensures (Model(), taken) == TakeOne(old(Model()))
    {
      if failed || queue == [] {
        return None;
      }
      taken := Some(queue[0]);
      queue := queue[1..];
    }
  }

  lemma MadeIsSmall(e: Encoder, s: Sample)
    requires s.Bounded()
    ensures EncodeOne(e, s).1.Object? ==> EncodeOne(e, s).1.fragment.sample == s && |s.bytes| <= MaxSample
  {
    hide Microseconds, PropertiesOf, Serialize;
  }

  lemma NothingQueued()
    ensures QueuedBytes([]) == 0
  {
  }

  lemma ShedTurn(q: seq<Fragment>, dropped: map<string, nat>, depth: nat)
    requires q != [] && Over(q, depth)
    ensures |Erase(q, Track(q[0]), q[0].group)| < |q|
    ensures Shed(q, dropped, depth) ==
      Shed(Erase(q, Track(q[0]), q[0].group), dropped[Track(q[0]) := q[0].group], depth)
  {
    hide QueuedBytes, Erase;
    assert InGroup(q[0], Track(q[0]), q[0].group);
    EraseShrinks(q, Track(q[0]), q[0].group);
  }

  lemma ShedStops(q: seq<Fragment>, dropped: map<string, nat>, depth: nat)
    requires !Over(q, depth)
    ensures Shed(q, dropped, depth) == (q, dropped)
  {
  }
}
