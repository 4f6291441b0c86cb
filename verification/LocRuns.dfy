/**
 * Runs of the LOC ingest: what the encoders produced, what subscribers got, and
 * why a delivered group is always decodable from its start.
 */
module LocRuns {
  import opened Bytes
  import opened LocEncoder
  import opened ObjectProperties
  import opened LocIngest

  // ---- one track's log

  /** The fragments of one track, and of one of its groups when given. */
  function Of(log: seq<Fragment>, t: string, g: Option<nat>): seq<Fragment> {
    if log == [] then []
    else
      var n := |log| - 1;
      Of(log[..n], t, g) + if Track(log[n]) == t && (g.None? || log[n].group == g.value) then [log[n]] else []
  }

  /** How a track's next object follows the one before. */
  ghost predicate Follows(a: Fragment, b: Fragment, video: bool) {
    if !video || b.sample.independent then b.group == a.group + 1 && b.id == 0 && a.sample.End() <= b.sample.decode
    else b.group == a.group && b.id == a.id + 1 && b.sample.decode == a.sample.End()
  }

  ghost predicate Chained(log: seq<Fragment>, video: bool) {
    (log != [] ==> log[0].id == 0 && (video ==> log[0].sample.independent)) &&
    forall i | 0 < i < |log| :: Follows(log[i - 1], log[i], video)
  }

  /** An encoder and the log of its track, group numbers offset by the initial one. */
  ghost predicate Behind(e: Encoder, log: seq<Fragment>, initial: nat) {
    Chained(log, e.video) && (e.started <==> log != []) && (!e.started ==> e.waiting && e.group == 0) &&
    (forall f | f in log :: Track(f) == e.track) &&
    (e.started ==>
       var last := log[|log| - 1];
       last.group == e.group + initial && last.id + 1 == e.id && e.expected.Some? &&
       last.sample.End() <= e.expected.value && (e.video && !e.waiting ==> last.sample.End() == e.expected.value))
  }

  lemma ChainedAppend(log: seq<Fragment>, f: Fragment, video: bool)
    requires Chained(log, video)
    requires if log == [] then f.id == 0 && (video ==> f.sample.independent) else Follows(log[|log| - 1], f, video)
    ensures Chained(log + [f], video)
  {
  }

  /** The encoder theorem, one step: an object made continues the chain, a skipped sample keeps it. */
  lemma EncodeKeepsChain(e: Encoder, log: seq<Fragment>, initial: nat, s: Sample)
    requires Behind(e, log, initial) && s.Bounded()
    ensures var (next, made) := EncodeOne(e, s);
      match made
      case Threw => next.track == e.track
      case Skipped => Behind(next, log, initial)
      case Object(f) => f.sample == s && Behind(next, log + [f.(group := f.group + initial)], initial)
  {
    hide Microseconds, PropertiesOf, Serialize, Chained;
    var (next, made) := EncodeOne(e, s);
    if made.Object? {
      ChainedAppend(log, made.fragment.(group := made.fragment.group + initial), e.video);
    }
  }

  // ---- groups of a chain

  lemma {:induction false} GroupsRise(log: seq<Fragment>, video: bool, i: nat, j: nat)
    requires Chained(log, video) && i <= j < |log|
    ensures log[i].group <= log[j].group
    decreases j
  {
    if i < j {
      GroupsRise(log, video, i, j - 1);
      assert Follows(log[j - 1], log[j], video);
    }
  }

  lemma {:induction false} OfMembers(log: seq<Fragment>, t: string, g: Option<nat>)
    ensures forall f :: f in Of(log, t, g) <==> f in log && Track(f) == t && (g.None? || f.group == g.value)
  {
    if log != [] {
      OfMembers(log[..|log| - 1], t, g);
      assert forall f :: f in log <==> f in log[..|log| - 1] || f == log[|log| - 1];
    }
  }

  /** A group of a chain is numbered from 0, opens independently and plays without a gap. */
  ghost predicate Decodable(group: seq<Fragment>, video: bool) {
    forall i | 0 <= i < |group| :: InPlace(group, i, video)
  }

  ghost predicate InPlace(group: seq<Fragment>, i: nat, video: bool)
    requires i < |group|
  {
    group[i].id == i && (video && i == 0 ==> group[i].sample.independent) &&
    (i > 0 ==> video && group[i].sample.decode == group[i - 1].sample.End())
  }

  lemma DecodableAppend(group: seq<Fragment>, f: Fragment, video: bool)
    requires Decodable(group, video)
    requires if group == [] then f.id == 0 && (video ==> f.sample.independent)
      else video && f.id == group[|group| - 1].id + 1 && f.sample.decode == group[|group| - 1].sample.End()
    ensures Decodable(group + [f], video)
  {
    if group != [] {
      assert InPlace(group, |group| - 1, video);
    }
    forall i | 0 <= i < |group| + 1
      ensures InPlace(group + [f], i, video)
    {
      assert i < |group| ==> InPlace(group, i, video);
    }
  }

  lemma {:induction false} GroupsOfChain(log: seq<Fragment>, video: bool, t: string, g: nat)
    requires Chained(log, video) && forall f | f in log :: Track(f) == t
    ensures var group := Of(log, t, Some(g));
      Decodable(group, video) && (group != [] && log[|log| - 1].group == g ==> group[|group| - 1] == log[|log| - 1]) &&
      (log != [] && log[|log| - 1].group == g ==> group != [])
  {
    hide Of, Decodable;
    if log == [] {
      EmptyGroup(t, g, video);
    } else {
      var n := |log| - 1;
      GroupsOfChain(log[..n], video, t, g);
      OfLast(log, t, Some(g));
      assert Of(log[..n], t, Some(g)) + [] == Of(log[..n], t, Some(g));
      if log[n].group == g {
        if n > 0 {
          assert Follows(log[n - 1], log[n], video);
          if log[n - 1].group != g {
            NoneYet(log[..n], video, t, g);
          }
        } else {
          EmptyGroup(t, g, video);
        }
        DecodableAppend(Of(log[..n], t, Some(g)), log[n], video);
      }
    }
  }

  lemma EmptyGroup(t: string, g: nat, video: bool)
    ensures Of([], t, Some(g)) == [] && Decodable([], video)
  {
  }

  lemma OfLast(log: seq<Fragment>, t: string, g: Option<nat>)
    requires log != []
    ensures var n := |log| - 1;
      Of(log, t, g) == Of(log[..n], t, g) + if Track(log[n]) == t && (g.None? || log[n].group == g.value) then [log[n]] else []
  {
  }

  lemma NoneYet(log: seq<Fragment>, video: bool, t: string, g: nat)
    requires Chained(log, video) && log != [] && log[|log| - 1].group < g
    ensures Of(log, t, Some(g)) == []
  {
    OfMembers(log, t, Some(g));
    if Of(log, t, Some(g)) != [] {
      var f := Of(log, t, Some(g))[0];
      assert f in Of(log, t, Some(g));
      var i :| 0 <= i < |log| && log[i] == f;
      GroupsRise(log, video, i, |log| - 1);
    }
  }

  lemma {:induction false} OfOf(log: seq<Fragment>, t: string, g: nat)
    ensures Of(Of(log, t, None), t, Some(g)) == Of(log, t, Some(g))
  {
    if log != [] {
      hide Of;
      var n := |log| - 1;
      OfOf(log[..n], t, g);
      OfLast(log, t, None);
      OfLast(log, t, Some(g));
      var before := Of(log[..n], t, None);
      assert before + [] == before;
      OfAppend(before, log[n], t, Some(g));
    }
  }

  // ---- the queue between two logs

  function Both(delivered: seq<Fragment>, queue: seq<Fragment>, t: string, g: nat): seq<Fragment> {
    Of(delivered, t, Some(g)) + Of(queue, t, Some(g))
  }

  ghost predicate RisingGroups(log: seq<Fragment>) {
    forall i, j | 0 <= i < j < |log| && Track(log[i]) == Track(log[j]) :: log[i].group <= log[j].group
  }

  /** Delivered plus queued is all that was produced, except of groups at or below a dropped one. */
  ghost predicate Conserved(produced: seq<Fragment>, delivered: seq<Fragment>, queue: seq<Fragment>,
                            dropped: map<string, nat>)
  {
    (forall t, g :: Both(delivered, queue, t, g) <= Of(produced, t, Some(g))) &&
    (forall t, g :: !Refused(dropped, t, g) ==> Both(delivered, queue, t, g) == Of(produced, t, Some(g))) &&
    (forall f | f in queue :: !Refused(dropped, Track(f), f.group)) && RisingGroups(queue) &&
    (forall f | f in queue :: f in produced)
  }

  lemma OfAppend(log: seq<Fragment>, f: Fragment, t: string, g: Option<nat>)
    ensures Of(log + [f], t, g) == Of(log, t, g) + if Track(f) == t && (g.None? || f.group == g.value) then [f] else []
  {
    assert (log + [f])[..|log|] == log;
  }

  lemma {:induction false} OfConcat(a: seq<Fragment>, b: seq<Fragment>, t: string, g: Option<nat>)
    ensures Of(a + b, t, g) == Of(a, t, g) + Of(b, t, g)
  {
    if b == [] {
      assert a + b == a;
    } else {
      var n := |b| - 1;
      assert (a + b)[..|a + b| - 1] == a + b[..n];
      OfConcat(a, b[..n], t, g);
    }
  }

  lemma {:induction false} OfErase(q: seq<Fragment>, t: string, g: nat, t': string, g': nat)
    ensures Of(Erase(q, t, g), t', Some(g')) == if t == t' && g == g' then [] else Of(q, t', Some(g'))
  {
    if q != [] {
      hide Of, Erase;
      var n := |q| - 1;
      OfErase(q[..n], t, g, t', g');
      OfLast(q, t', Some(g'));
      EraseLast(q, t, g);
      var before := Erase(q[..n], t, g);
      assert before + [] == before;
      OfAppend(before, q[n], t', Some(g'));
    }
  }

  lemma EraseLast(q: seq<Fragment>, t: string, g: nat)
    requires q != []
    ensures Erase(q, t, g) == Erase(q[..|q| - 1], t, g) + if InGroup(q[|q| - 1], t, g) then [] else [q[|q| - 1]]
  {
  }

  lemma {:induction false} EraseRises(q: seq<Fragment>, t: string, g: nat)
    requires RisingGroups(q)
    ensures RisingGroups(Erase(q, t, g))
    ensures forall f | f in Erase(q, t, g) && Track(f) == t && q != [] && Track(q[0]) == t && q[0].group == g :: f.group > g
  {
    if q != [] {
      var n := |q| - 1;
      EraseRises(q[..n], t, g);
      forall f | f in Erase(q[..n], t, g) && Track(f) == Track(q[n])
        ensures f.group <= q[n].group
      {
        var i :| 0 <= i < n && q[i] == f;
      }
    }
  }

  lemma TakeConserves(produced: seq<Fragment>, delivered: seq<Fragment>, queue: seq<Fragment>, dropped: map<string, nat>)
    requires Conserved(produced, delivered, queue, dropped) && queue != []
    ensures Conserved(produced, delivered + [queue[0]], queue[1..], dropped)
  {
    hide Of, Refused, RisingGroups;
    forall t, g
      ensures Both(delivered + [queue[0]], queue[1..], t, g) == Both(delivered, queue, t, g)
    {
      OfConcat(delivered, [queue[0]], t, Some(g));
      OfConcat([queue[0]], queue[1..], t, Some(g));
      assert [queue[0]] + queue[1..] == queue;
      assert Of(delivered, t, Some(g)) + (Of([queue[0]], t, Some(g)) + Of(queue[1..], t, Some(g))) ==
        Of(delivered, t, Some(g)) + Of([queue[0]], t, Some(g)) + Of(queue[1..], t, Some(g));
    }
    TailRises(queue);
  }

  lemma TailRises(queue: seq<Fragment>)
    requires RisingGroups(queue) && queue != []
    ensures RisingGroups(queue[1..])
  {
  }

  lemma RefusedConserves(produced: seq<Fragment>, delivered: seq<Fragment>, queue: seq<Fragment>,
                         dropped: map<string, nat>, f: Fragment)
    requires Conserved(produced, delivered, queue, dropped) && Refused(dropped, Track(f), f.group)
    ensures Conserved(produced + [f], delivered, queue, dropped)
  {
    hide Of, Both, RisingGroups;
    forall t, g
      ensures Of(produced + [f], t, Some(g)) == Of(produced, t, Some(g)) + if Track(f) == t && f.group == g then [f] else []
    {
      OfAppend(produced, f, t, Some(g));
    }
  }

  lemma QueuedConserves(produced: seq<Fragment>, delivered: seq<Fragment>, queue: seq<Fragment>,
                        dropped: map<string, nat>, f: Fragment)
    requires Conserved(produced, delivered, queue, dropped) && !Refused(dropped, Track(f), f.group)
    requires forall p | p in produced && Track(p) == Track(f) :: p.group <= f.group
    ensures Conserved(produced + [f], delivered, queue + [f], dropped)
  {
    hide Of, Refused;
    forall t, g
      ensures var more := if Track(f) == t && f.group == g then [f] else [];
        Of(produced + [f], t, Some(g)) == Of(produced, t, Some(g)) + more &&
        Both(delivered, queue + [f], t, g) == Both(delivered, queue, t, g) + more
    {
      OfAppend(produced, f, t, Some(g));
      OfAppend(queue, f, t, Some(g));
    }
    forall t, g
      ensures Track(f) == t && f.group == g ==> !Refused(dropped, t, g)
    {
    }
  }

  lemma {:induction false} ShedConserves(produced: seq<Fragment>, delivered: seq<Fragment>, queue: seq<Fragment>,
                                         dropped: map<string, nat>, depth: nat)
    requires Conserved(produced, delivered, queue, dropped)
    ensures Conserved(produced, delivered, Shed(queue, dropped, depth).0, Shed(queue, dropped, depth).1)
    decreases |queue|
  {
    hide Conserved, Erase, QueuedBytes;
    if queue != [] && Over(queue, depth) {
      var t, g := Track(queue[0]), queue[0].group;
      ShedTurn(queue, dropped, depth);
      DropConserves(produced, delivered, queue, dropped);
      ShedConserves(produced, delivered, Erase(queue, t, g), dropped[t := g], depth);
    }
  }

  lemma DropConserves(produced: seq<Fragment>, delivered: seq<Fragment>, queue: seq<Fragment>, dropped: map<string, nat>)
    requires Conserved(produced, delivered, queue, dropped) && queue != []
    ensures Conserved(produced, delivered, Erase(queue, Track(queue[0]), queue[0].group),
                      dropped[Track(queue[0]) := queue[0].group])
  {
    hide Of, Erase, RisingGroups, Track;
    var t, g := Track(queue[0]), queue[0].group;
    EraseRises(queue, t, g);
    assert !Refused(dropped, t, g);
    forall t', g'
      ensures Both(delivered, Erase(queue, t, g), t', g') <= Both(delivered, queue, t', g')
      ensures !(t' == t && g' == g) ==> Both(delivered, Erase(queue, t, g), t', g') == Both(delivered, queue, t', g')
    {
      OfErase(queue, t, g, t', g');
    }
  }

  // ---- runs

  datatype Event = Samples(samples: seq<Sample>) | Take

  datatype History = History(session: Session, produced: seq<Fragment>, delivered: seq<Fragment>)

  ghost predicate BoundedEvent(e: Event) {
    e.Samples? ==> forall s | s in e.samples :: s.Bounded()
  }

  function Produced(s: Session, sample: Sample): seq<Fragment>
    requires sample.Bounded()
  {
    if sample.track !in s.encoders then []
    else
      var made := EncodeOne(s.encoders[sample.track], sample).1;
      if made.Object? && made.fragment.group + s.initial <= MaxGroupId then
        [made.fragment.(group := made.fragment.group + s.initial)]
      else []
  }

  /** One media box: its samples in order, until one of them breaks the session. */
  function IngestAll(h: History, samples: seq<Sample>): History
    requires forall s | s in samples :: s.Bounded()
  {
    if samples == [] then h
    else
      var n := |samples| - 1;
      var before := IngestAll(h, samples[..n]);
      if before.session.failed then before
      else
        before.(session := IngestOne(before.session, samples[n]),
                produced := before.produced + Produced(before.session, samples[n]))
  }

  function Next(h: History, e: Event): History
    requires BoundedEvent(e)
  {
    match e
    case Samples(samples) => IngestAll(h, samples)
    case Take =>
      var (next, taken) := TakeOne(h.session);
      h.(session := next, delivered := h.delivered + if taken.Some? then [taken.value] else [])
  }

  function Run(start: Session, events: seq<Event>): History
    requires forall e | e in events :: BoundedEvent(e)
  {
    if events == [] then History(start, [], []) else Next(Run(start, events[..|events| - 1]), events[|events| - 1])
  }

  /** A session as constructed for a fixed set of tracks. */
  ghost predicate Opening(s: Session) {
    s.depth > 0 && s.queue == [] && s.dropped == map[] && !s.failed &&
    forall t | t in s.encoders :: s.encoders[t].track == t && Behind(s.encoders[t], [], s.initial)
  }

  ghost predicate TracksKept(h: History) {
    forall t | t in h.session.encoders ::
      h.session.encoders[t].track == t && Behind(h.session.encoders[t], Of(h.produced, t, None), h.session.initial)
  }

  /** Once broken, what was delivered is still a prefix of every produced group. */
  ghost predicate Inv(h: History) {
    h.session.depth > 0 && (forall f | f in h.produced :: Track(f) in h.session.encoders) &&
    if h.session.failed then
      h.session.queue == [] &&
      (forall t | t in h.session.encoders :: h.session.encoders[t].track == t) &&
      (forall t | t in h.session.encoders :: Chained(Of(h.produced, t, None), h.session.encoders[t].video)) &&
      forall t, g :: Of(h.delivered, t, Some(g)) <= Of(h.produced, t, Some(g))
    else
      TracksKept(h) && Conserved(h.produced, h.delivered, h.session.queue, h.session.dropped) &&
      !Over(h.session.queue, h.session.depth)
  }

  lemma NewestGroup(h: History, t: string)
    requires TracksKept(h) && t in h.session.encoders && h.session.encoders[t].started
    ensures forall p | p in h.produced && Track(p) == t :: p.group <= h.session.encoders[t].group + h.session.initial
  {
    var log, e := Of(h.produced, t, None), h.session.encoders[t];
    OfMembers(h.produced, t, None);
    forall p | p in h.produced && Track(p) == t
      ensures p.group <= e.group + h.session.initial
    {
      assert p in log;
      var i :| 0 <= i < |log| && log[i] == p;
      GroupsRise(log, e.video, i, |log| - 1);
    }
  }

  lemma NothingProduced(h: History, t: string)
    requires TracksKept(h) && t in h.session.encoders && !h.session.encoders[t].started
    ensures forall p | p in h.produced :: Track(p) != t
  {
    OfMembers(h.produced, t, None);
    assert Of(h.produced, t, None) == [];
  }

  lemma MadeIsNewest(e: Encoder, s: Sample)
    requires s.Bounded() && EncodeOne(e, s).1.Object?
    ensures EncodeOne(e, s).1.fragment.sample == s && s.track == e.track && EncodeOne(e, s).0.track == e.track
    ensures e.group <= EncodeOne(e, s).1.fragment.group && EncodeOne(e, s).0.video == e.video
  {
    hide Microseconds, PropertiesOf, Serialize;
  }

  lemma EncoderKind(e: Encoder, s: Sample)
    requires s.Bounded()
    ensures EncodeOne(e, s).0.video == e.video && EncodeOne(e, s).0.track == e.track
  {
    hide Microseconds, PropertiesOf, Serialize;
  }

  /** A session that breaks leaves delivered prefixes behind. */
  lemma BreakKeepsInv(h: History, encoders: map<string, Encoder>)
    requires Inv(h) && !h.session.failed && encoders.Keys == h.session.encoders.Keys
    requires forall t | t in encoders ::
      encoders[t].video == h.session.encoders[t].video && encoders[t].track == h.session.encoders[t].track
    ensures Inv(h.(session := Break(h.session.(encoders := encoders))))
  {
    hide Chained, Of;
    forall t, g
      ensures Of(h.delivered, t, Some(g)) <= Of(h.produced, t, Some(g))
    {
      assert Of(h.delivered, t, Some(g)) <= Both(h.delivered, h.session.queue, t, g);
    }
  }

  lemma SkipKeepsInv(h: History, sample: Sample)
    requires Inv(h) && !h.session.failed && sample.Bounded() && sample.track in h.session.encoders
    requires EncodeOne(h.session.encoders[sample.track], sample).1.Skipped?
    ensures Inv(h.(session := IngestOne(h.session, sample), produced := h.produced + []))
  {
    hide EncodeOne, Behind, Conserved, Of;
    assert h.produced + [] == h.produced;
    EncodeKeepsChain(h.session.encoders[sample.track], Of(h.produced, sample.track, None), h.session.initial, sample);
    EncoderKind(h.session.encoders[sample.track], sample);
  }

  lemma ObjectKeepsTracks(h: History, sample: Sample, f: Fragment)
    requires TracksKept(h) && sample.Bounded() && sample.track in h.session.encoders
    requires EncodeOne(h.session.encoders[sample.track], sample).1.Object?
    requires f == EncodeOne(h.session.encoders[sample.track], sample).1.fragment.(group :=
      EncodeOne(h.session.encoders[sample.track], sample).1.fragment.group + h.session.initial)
    ensures Track(f) == sample.track
    ensures TracksKept(h.(session := h.session.(encoders :=
                            h.session.encoders[sample.track := EncodeOne(h.session.encoders[sample.track], sample).0]),
                          produced := h.produced + [f]))
    ensures forall p | p in h.produced && Track(p) == sample.track :: p.group <= f.group
  {
    hide EncodeOne, Behind, Of;
    var t := sample.track;
    var e := h.session.encoders[t];
    MadeIsNewest(e, sample);
    EncodeKeepsChain(e, Of(h.produced, t, None), h.session.initial, sample);
    forall u | u in h.session.encoders
      ensures Of(h.produced + [f], u, None) == Of(h.produced, u, None) + if u == t then [f] else []
      ensures Of(h.produced, u, None) + [] == Of(h.produced, u, None)
    {
      OfAppend(h.produced, f, u, None);
    }
    if e.started {
      NewestGroup(h, t);
    } else {
      NothingProduced(h, t);
    }
  }

  lemma ObjectConserves(h: History, f: Fragment)
    requires Conserved(h.produced, h.delivered, h.session.queue, h.session.dropped) && h.session.depth > 0
    requires !Over(h.session.queue, h.session.depth)
    requires forall p | p in h.produced && Track(p) == Track(f) :: p.group <= f.group
    ensures var s := Enqueue(h.session, f);
      Conserved(h.produced + [f], h.delivered, s.queue, s.dropped) && !Over(s.queue, s.depth)
  {
    hide Conserved, Shed, QueuedBytes;
    if Refused(h.session.dropped, Track(f), f.group) {
      RefusedConserves(h.produced, h.delivered, h.session.queue, h.session.dropped, f);
    } else {
      QueuedConserves(h.produced, h.delivered, h.session.queue, h.session.dropped, f);
      ShedConserves(h.produced + [f], h.delivered, h.session.queue + [f], h.session.dropped, h.session.depth);
      ShedFits(h.session.queue + [f], h.session.dropped, h.session.depth);
    }
  }

  lemma {:induction false} ShedFits(q: seq<Fragment>, dropped: map<string, nat>, depth: nat)
    ensures !Over(Shed(q, dropped, depth).0, depth)
    decreases |q|
  {
    if q != [] && Over(q, depth) {
      ShedTurn(q, dropped, depth);
      ShedFits(Erase(q, Track(q[0]), q[0].group), dropped[Track(q[0]) := q[0].group], depth);
    }
  }

  lemma SampleKeepsInv(h: History, sample: Sample)
    requires Inv(h) && !h.session.failed && sample.Bounded()
    ensures Inv(h.(session := IngestOne(h.session, sample), produced := h.produced + Produced(h.session, sample)))
  {
    hide EncodeOne, TracksKept, Conserved, Enqueue, Over;
    assert h.produced + [] == h.produced;
    if sample.track in h.session.encoders {
      var e := h.session.encoders[sample.track];
      var (next, made) := EncodeOne(e, sample);
      EncoderKind(e, sample);
      var encoders := h.session.encoders[sample.track := next];
      assert encoders.Keys == h.session.encoders.Keys;
      if made.Skipped? {
        SkipKeepsInv(h, sample);
      } else if made.Threw? || made.fragment.group + h.session.initial > MaxGroupId {
        BreakKeepsInv(h, encoders);
      } else {
        var f := made.fragment.(group := made.fragment.group + h.session.initial);
        ObjectKeepsTracks(h, sample, f);
        ObjectConserves(h, f);
        EnqueueTouches(h.session.(encoders := encoders), h.session, f);
        SameTracks(h.(session := h.session.(encoders := encoders), produced := h.produced + [f]),
                   h.(session := Enqueue(h.session.(encoders := encoders), f), produced := h.produced + [f]));
      }
    }
  }

  lemma EnqueueTouches(s: Session, t: Session, f: Fragment)
    requires s == t.(encoders := s.encoders)
    ensures Enqueue(s, f) == Enqueue(t, f).(encoders := s.encoders)
    ensures Enqueue(s, f) == s.(queue := Enqueue(s, f).queue, dropped := Enqueue(s, f).dropped)
  {
  }

  lemma SameTracks(h: History, k: History)
    requires TracksKept(h) && k.produced == h.produced && k.session.encoders == h.session.encoders
    requires k.session.initial == h.session.initial
    ensures TracksKept(k)
  {
  }

  lemma {:induction false} SamplesKeepInv(h: History, samples: seq<Sample>)
    requires Inv(h) && !h.session.failed && forall s | s in samples :: s.Bounded()
    ensures Inv(IngestAll(h, samples))
  {
    hide Inv, IngestOne, Produced;
    if samples != [] {
      SamplesKeepInv(h, samples[..|samples| - 1]);
      var before := IngestAll(h, samples[..|samples| - 1]);
      if !before.session.failed {
        SampleKeepsInv(before, samples[|samples| - 1]);
      }
    }
  }

  lemma {:induction false} BrokenStays(h: History, samples: seq<Sample>)
    requires h.session.failed && forall s | s in samples :: s.Bounded()
    ensures IngestAll(h, samples) == h
  {
    if samples != [] {
      BrokenStays(h, samples[..|samples| - 1]);
    }
  }

  lemma TakeKeepsInv(h: History)
    requires Inv(h)
    ensures Inv(Next(h, Take))
  {
    hide Of, Chained, Conserved, Over;
    assert h.delivered + [] == h.delivered;
    if !h.session.failed && h.session.queue != [] {
      TakeConserves(h.produced, h.delivered, h.session.queue, h.session.dropped);
      SameTracks(h, Next(h, Take));
      SmallerFits(h.session.queue, h.session.depth);
    }
  }

  lemma {:induction false} TailBytes(q: seq<Fragment>)
    requires q != []
    ensures QueuedBytes(q) == |q[0].sample.bytes| + QueuedBytes(q[1..])
  {
    var n := |q| - 1;
    if n > 0 {
      TailBytes(q[..n]);
      assert q[1..][..n - 1] == q[..n][1..];
    }
  }

  lemma SmallerFits(q: seq<Fragment>, depth: nat)
    requires q != [] && !Over(q, depth)
    ensures !Over(q[1..], depth)
  {
    TailBytes(q);
  }

  lemma {:induction false} RunKeepsInv(start: Session, events: seq<Event>)
    requires Opening(start) && forall e | e in events :: BoundedEvent(e)
    ensures Inv(Run(start, events))
  {
    if events == [] {
      OpeningInv(start);
    } else {
      hide Inv, IngestAll, TakeOne;
      var before, e := events[..|events| - 1], events[|events| - 1];
      assert e in events;
      RunKeepsInv(start, before);
      var h := Run(start, before);
      match e
      case Samples(samples) =>
        if h.session.failed {
          BrokenStays(h, samples);
        } else {
          SamplesKeepInv(h, samples);
        }
      case Take => TakeKeepsInv(h);
    }
  }

  lemma OpeningInv(s: Session)
    requires Opening(s)
    ensures Inv(History(s, [], []))
  {
    hide Behind;
  }

  lemma {:induction false} EncodersKept(start: Session, events: seq<Event>)
    requires forall e | e in events :: BoundedEvent(e)
    ensures var s := Run(start, events).session;
      s.encoders.Keys == start.encoders.Keys && s.depth == start.depth &&
      forall t | t in s.encoders :: s.encoders[t].video == start.encoders[t].video
  {
    if events != [] {
      var before, e := events[..|events| - 1], events[|events| - 1];
      assert e in events;
      EncodersKept(start, before);
      if e.Samples? {
        SamplesKeepEncoders(Run(start, before), e.samples);
      }
    }
  }

  lemma {:induction false} SamplesKeepEncoders(h: History, samples: seq<Sample>)
    requires forall s | s in samples :: s.Bounded()
    ensures var s := IngestAll(h, samples).session;
      s.encoders.Keys == h.session.encoders.Keys && s.depth == h.session.depth &&
      forall t | t in s.encoders :: s.encoders[t].video == h.session.encoders[t].video
  {
    hide IngestOne, Produced;
    if samples != [] {
      var n := |samples| - 1;
      SamplesKeepEncoders(h, samples[..n]);
      OneKeepsEncoders(IngestAll(h, samples[..n]).session, samples[n]);
    }
  }

  lemma OneKeepsEncoders(s: Session, sample: Sample)
    requires sample.Bounded()
    ensures var r := IngestOne(s, sample);
      r.encoders.Keys == s.encoders.Keys && r.depth == s.depth &&
      forall t | t in r.encoders :: r.encoders[t].video == s.encoders[t].video
  {
    hide EncodeOne, Shed;
    if sample.track in s.encoders {
      EncoderKind(s.encoders[sample.track], sample);
    }
  }

  // ---- the main results

  /**
   * End to end: after any run of media boxes and takes, what was delivered of any
   * group is a prefix of what its encoder produced, and the queue is within its
   * depth and 16 MiB.
   */
  lemma DeliveredIsPrefix(start: Session, events: seq<Event>, t: string, g: nat)
    requires Opening(start) && forall e | e in events :: BoundedEvent(e)
    ensures var h := Run(start, events);
      Of(h.delivered, t, Some(g)) <= Of(h.produced, t, Some(g)) &&
      |h.session.queue| <= start.depth && QueuedBytes(h.session.queue) <= MaxQueuedBytes
  {
    hide Run, Of, Chained;
    RunKeepsInv(start, events);
    EncodersKept(start, events);
    NothingQueued();
    var h := Run(start, events);
    if !h.session.failed {
      assert Of(h.delivered, t, Some(g)) <= Both(h.delivered, h.session.queue, t, g);
    }
  }

  /**
   * Every delivered group can be decoded: its objects are numbered from 0, a video
   * group starts with an independent frame, and each frame starts where the one
   * before it ended; a track that is not video has one object a group.
   */
  lemma DeliveredGroupsDecode(start: Session, events: seq<Event>, t: string, g: nat)
    requires Opening(start) && forall e | e in events :: BoundedEvent(e)
    ensures Of(Run(start, events).delivered, t, Some(g)) == [] ||
            (t in start.encoders && Decodable(Of(Run(start, events).delivered, t, Some(g)), start.encoders[t].video))
  {
    hide Run, Of, Chained, Decodable, Conserved;
    var h := Run(start, events);
    RunKeepsInv(start, events);
    EncodersKept(start, events);
    DeliveredIsPrefix(start, events, t, g);
    var got, made := Of(h.delivered, t, Some(g)), Of(h.produced, t, Some(g));
    OfMembers(h.produced, t, Some(g));
    if got != [] {
      assert got[0] == made[0] && made[0] in made;
      var log, video := Of(h.produced, t, None), start.encoders[t].video;
      OfMembers(h.produced, t, None);
      ChainOf(h, t);
      GroupsOfChain(log, video, t, g);
      OfOf(h.produced, t, g);
      PrefixDecodes(got, made, video);
    }
  }

  lemma ChainOf(h: History, t: string)
    requires Inv(h) && t in h.session.encoders
    ensures Chained(Of(h.produced, t, None), h.session.encoders[t].video)
  {
  }

  lemma PrefixDecodes(a: seq<Fragment>, b: seq<Fragment>, video: bool)
    requires a <= b && Decodable(b, video)
    ensures Decodable(a, video)
  {
    forall i | 0 <= i < |a|
      ensures InPlace(a, i, video)
    {
      assert InPlace(b, i, video);
    }
  }
}
