/**
 * The LOC track encoder: one frame per object, a video group opened by each
 * independent frame and abandoned at a gap until the next one.
 */
module LocEncoder {
  import opened Bytes
  import opened ObjectProperties

  const MaxSample := 16777216

  datatype Sample = Sample(track: string, timescale: nat, decode: nat, presentation: int, duration: nat,
                           independent: bool, bytes: seq<Byte>)
  {
    predicate Bounded() {
      timescale <= MaxU32 && decode <= MaxU64 && -0x8000_0000_0000_0000 <= presentation <= 0x7FFF_FFFF_FFFF_FFFF &&
      duration <= MaxU32
    }

    function End(): nat {
      decode + duration
    }
  }

  /** An object; its bytes are those of its sample. */
  datatype Fragment = Fragment(group: nat, id: nat, startUs: nat, presentationUs: nat, durationUs: nat, keyframe: bool,
                               sap: nat, properties: seq<Property>, sample: Sample)

  datatype Encoder = Encoder(track: string, timescale: nat, video: bool, config: seq<Byte>, group: nat, id: nat,
                             started: bool, waiting: bool, expected: Option<nat>)

  datatype Made = Threw | Skipped | Object(fragment: Fragment)

  // ---- time

  function Quotient(n: nat, d: nat): nat
    requires d > 0
  {
    n / d
  }

  function Remainder(n: nat, d: nat): nat
    requires d > 0
  {
    n % d
  }

  /** `microseconds`, None for an exception. */
  function Microseconds(ticks: nat, timescale: nat): Option<nat> {
    if timescale == 0 || Quotient(ticks, timescale) > MaxU64 / 1000000 then None
    else
      var whole := Quotient(ticks, timescale) * 1000000;
      var fraction := Quotient(Remainder(ticks, timescale) * 1000000, timescale);
      if fraction > MaxU64 - whole then None else Some(whole + fraction)
  }

  lemma Divides(n: nat, t: nat)
    requires t > 0
    ensures n == Quotient(n, t) * t + Remainder(n, t) && Remainder(n, t) < t
  {
  }

  lemma QuotientIs(n: nat, t: nat, q: nat, r: nat)
    requires t > 0 && n == q * t + r && r < t
    ensures Quotient(n, t) == q
  {
    DivModUnique(n, t, q, r);
  }

  lemma Distribute(q: nat, x: nat, r: nat, t: nat)
    ensures (q * t + r) * 1000000 == q * 1000000 * t + r * 1000000
    ensures q * 1000000 * t + x * t == (q * 1000000 + x) * t
  {
    assert q * t * 1000000 == q * 1000000 * t;
  }

  /** The split conversion is the exact floor, and it fails exactly when that needs more than 64 bits. */
  lemma MicrosecondsIsFloor(ticks: nat, timescale: nat)
    requires timescale > 0
    ensures Microseconds(ticks, timescale) ==
      if Quotient(ticks * 1000000, timescale) <= MaxU64 then Some(Quotient(ticks * 1000000, timescale)) else None
  {
    hide Quotient, Remainder;
    var q, r := Quotient(ticks, timescale), Remainder(ticks, timescale);
    Divides(ticks, timescale);
    var x := Quotient(r * 1000000, timescale);
    Divides(r * 1000000, timescale);
    Distribute(q, x, r, timescale);
    QuotientIs(ticks * 1000000, timescale, q * 1000000 + x, Remainder(r * 1000000, timescale));
  }

  // ---- one sample

  /** Timescale, presentation time, frame marking of video and the codec configuration. */
  function PropertiesOf(video: bool, config: seq<Byte>, s: Sample): seq<Property>
    requires s.Bounded() && s.presentation >= 0
  {
    [Property(8, Integer(s.timescale)), Property(16, Integer(s.presentation))] +
    (if video then [Property(9, Data([if s.independent then 0xe0 else 0xc0]))] else []) +
    [Property(if video then 13 else 15, Data(config))]
  }

  predicate Acceptable(e: Encoder, s: Sample) {
    s.track == e.track && s.timescale == e.timescale && s.presentation >= 0 && s.duration > 0 && s.bytes != [] &&
    |s.bytes| <= MaxSample && s.duration <= MaxU64 - s.decode &&
    (e.expected.Some? ==> e.expected.value <= s.decode)
  }

  /** The gap rule: a video sample that does not follow on requires random access. */
  function Expecting(e: Encoder, s: Sample): Encoder {
    e.(expected := Some(s.End()),
       waiting := e.waiting || (e.video && e.expected.Some? && s.decode != e.expected.value))
  }

  predicate OpensGroup(e: Encoder, s: Sample) {
    !e.started || !e.video || s.independent
  }

  function Open(e: Encoder): Encoder {
    e.(group := if e.started then e.group + 1 else e.group, id := 0, started := true, waiting := false)
  }

  function EncodeOne(e: Encoder, s: Sample): (Encoder, Made)
    requires s.Bounded()
  {
    if e.timescale == 0 || !Acceptable(e, s) then (e, Threw)
    else
      var seen := Expecting(e, s);
      if seen.video && seen.waiting && !s.independent then (seen, Skipped)
      else if OpensGroup(seen, s) && seen.started && seen.group == MaxU64 then (seen, Threw)
      else
        var at := if OpensGroup(seen, s) then Open(seen) else seen;
        var start, pts, length := Microseconds(s.decode, s.timescale), Microseconds(s.presentation, s.timescale),
          Microseconds(s.duration, s.timescale);
        var properties := PropertiesOf(e.video, e.config, s);
        if start.None? || pts.None? || length.None? || Serialize(properties).None? then (at, Threw)
        else if at.id == MaxU64 then (at, Threw)
        else
          (at.(id := at.id + 1),
           Object(Fragment(at.group, at.id, start.value, pts.value, length.value, at.video && s.independent,
                           if s.independent then 1 else 0, properties, s)))
  }

  datatype Outcome = Failed | Encoded(fragments: seq<Fragment>)

  /** `encode`: all samples in order; the first exception loses the output of the call. */
  function Encode(e: Encoder, samples: seq<Sample>): (Encoder, Outcome)
    requires forall s | s in samples :: s.Bounded()
  {
    if samples == [] then (e, Encoded([]))
    else
      var n := |samples| - 1;
      var (before, outcome) := Encode(e, samples[..n]);
      if outcome.Failed? then (before, Failed)
      else
        var (next, made) := EncodeOne(before, samples[n]);
        match made
        case Threw => (next, Failed)
        case Skipped => (next, outcome)
        case Object(f) => (next, Encoded(outcome.fragments + [f]))
  }

  class LocTrackEncoder {
    const track: string
    const timescale: nat
    const video: bool
    const config: seq<Byte>
    var group: nat
    var id: nat
    var started: bool
    var waiting: bool
    var expected: Option<nat>

    ghost function Model(): Encoder
      reads this
    {
      Encoder(track, timescale, video, config, group, id, started, waiting, expected)
    }

    constructor (track: string, timescale: nat, video: bool, config: seq<Byte>)
      requires timescale > 0
      ensures Model() == Encoder(track, timescale, video, config, 0, 0, false, true, None)
    {
      this.track, this.timescale, this.video, this.config := track, timescale, video, config;
      group, id, started, waiting, expected := 0, 0, false, true, None;
    }

    method RequireRandomAccess()
      modifies `waiting
      ensures Model() == old(Model()).(waiting := true)
    {
      waiting := true;
    }

    method EncodeSample(s: Sample) returns (made: Made)
      requires s.Bounded() && timescale > 0
      modifies this
      ensures (Model(), made) == EncodeOne(old(Model()), s)
    {
      hide Microseconds, PropertiesOf, Serialize;
      if s.track != track || s.timescale != timescale {
        return Threw;
      }
      if s.presentation < 0 || s.duration == 0 || s.bytes == [] || |s.bytes| > MaxSample {
        return Threw;
      }
      if s.duration > MaxU64 - s.decode {
        return Threw;
      }
      if expected.Some? {
        if s.decode < expected.value {
          return Threw;
        }
        if video && s.decode != expected.value {
          RequireRandomAccess();
        }
      }
      expected := Some(s.decode + s.duration);
      if video && waiting && !s.independent {
        return Skipped;
      }
      var opens := !started || !video || s.independent;
      if opens {
        if started {
          if group == MaxU64 {
            return Threw;
          }
          group := group + 1;
        }
        id := 0;
        started := true;
        waiting := false;
      }
      var start := Microseconds(s.decode, s.timescale);
      var pts := Microseconds(s.presentation, s.timescale);
      var length := Microseconds(s.duration, s.timescale);
      if start.None? || pts.None? || length.None? {
        return Threw;
      }
      var properties := PropertiesOf(video, config, s);
      var block := SerializeObjectProperties(properties);
      if block.None? {
        return Threw;
      }
      var fragment := Fragment(group, id, start.value, pts.value, length.value, video && s.independent,
                               if s.independent then 1 else 0, properties, s);
      if id == MaxU64 {
        return Threw;
      }
      id := id + 1;
      return Object(fragment);
    }

    method EncodeSamples(samples: seq<Sample>) returns (outcome: Outcome)
      requires timescale > 0 && forall s | s in samples :: s.Bounded()
      modifies this
      ensures (Model(), outcome) == Encode(old(Model()), samples)
    {
      hide EncodeOne;
      var output: seq<Fragment> := [];
      for i := 0 to |samples|
        invariant (Model(), Encoded(output)) == Encode(old(Model()), samples[..i])
      {
        EncodeStep(old(Model()), samples, i);
        var made := EncodeSample(samples[i]);
        if made.Threw? {
          FailsLater(old(Model()), samples, i + 1);
          return Failed;
        }
        if made.Object? {
          output := output + [made.fragment];
        }
      }
      assert samples[..|samples|] == samples;
      return Encoded(output);
    }
  }

  lemma EncodeStep(e: Encoder, samples: seq<Sample>, i: nat)
    requires i < |samples| && forall s | s in samples :: s.Bounded()
    ensures Encode(e, samples[..i]).1.Encoded? ==>
      var (before, outcome) := Encode(e, samples[..i]);
      var (next, made) := EncodeOne(before, samples[i]);
      Encode(e, samples[..i + 1]) ==
        (next, if made.Threw? then Failed else if made.Skipped? then outcome
               else Encoded(outcome.fragments + [made.fragment]))
  {
    assert samples[..i + 1][..i] == samples[..i];
  }

  lemma {:induction false} FailsLater(e: Encoder, samples: seq<Sample>, i: nat)
    requires i <= |samples| && forall s | s in samples :: s.Bounded()
    requires Encode(e, samples[..i]).1.Failed?
    ensures Encode(e, samples) == Encode(e, samples[..i])
    decreases |samples| - i
  {
    if i == |samples| {
      assert samples[..i] == samples;
    } else {
      assert samples[..i + 1][..i] == samples[..i];
      FailsLater(e, samples, i + 1);
    }
  }
}
