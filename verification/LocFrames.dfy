/** What the LOC encoder makes of one sample, said on the fields of the sample and the encoder alone. */
module LocFrames {
  import opened Bytes
  import opened LocEncoder
  import opened ObjectProperties
  import Vi64

  /** A time in whole microseconds, rounded down. */
  ghost predicate IsTime(us: nat, ticks: nat, timescale: nat) {
    us * timescale <= ticks * 1000000 < us * timescale + timescale && us <= MaxU64
  }

  /** The time has a 64-bit microsecond form. */
  ghost predicate HasTime(ticks: nat, timescale: nat) {
    ticks * 1000000 < TwoTo64 * timescale
  }

  lemma MicrosecondsExactly(ticks: nat, timescale: nat, us: nat)
    requires timescale > 0
    ensures Microseconds(ticks, timescale) == Some(us) <==> IsTime(us, ticks, timescale)
    ensures Microseconds(ticks, timescale).Some? <==> HasTime(ticks, timescale)
  {
    hide Microseconds, Quotient, Remainder;
    MicrosecondsIsFloor(ticks, timescale);
    Divides(ticks * 1000000, timescale);
    FloorIs(ticks * 1000000, timescale, Quotient(ticks * 1000000, timescale), Remainder(ticks * 1000000, timescale), us);
  }

  lemma FloorIs(n: nat, t: nat, q: nat, r: nat, us: nat)
    requires t > 0 && n == q * t + r && r < t
    ensures us * t <= n < us * t + t <==> us == q
    ensures q <= MaxU64 <==> n < TwoTo64 * t
  {
    if us < q {
      Times(us + 1, q, t);
    } else if us > q {
      Times(q + 1, us, t);
    }
    if q <= MaxU64 {
      Times(q + 1, TwoTo64, t);
    } else {
      Times(TwoTo64, q, t);
    }
  }

  lemma Times(a: nat, b: nat, t: nat)
    requires a <= b
    ensures a * t <= b * t
    ensures a >= 1 ==> (a - 1) * t + t == a * t
  {
  }

  // ---- the properties

  /** The properties of a frame in the order of their ids. */
  function FrameProperties(video: bool, config: seq<Byte>, s: Sample): seq<Property>
    requires s.Bounded() && s.presentation >= 0
  {
    if video then
      [Property(8, Integer(s.timescale)), Property(9, Data([if s.independent then 0xe0 else 0xc0])),
       Property(13, Data(config)), Property(16, Integer(s.presentation))]
    else
      [Property(8, Integer(s.timescale)), Property(15, Data(config)), Property(16, Integer(s.presentation))]
  }

  /** The bytes they take: an id and a value each, and two lengths for video. */
  function PropertyBytes(video: bool, config: nat, s: Sample): nat
    requires s.presentation >= 0
  {
    (if video then 6 else 3) + config + Vi64.Length(config) + Vi64.Length(s.timescale) + Vi64.Length(s.presentation)
  }

  lemma InOrder(video: bool, config: seq<Byte>, s: Sample)
    requires s.Bounded() && s.presentation >= 0
    ensures Arranges(PropertiesOf(video, config, s), FrameProperties(video, config, s))
  {
    var scale, pts, marking, setup := Property(8, Integer(s.timescale)), Property(16, Integer(s.presentation)),
      Property(9, Data([if s.independent then 0xe0 else 0xc0])), Property(if video then 13 else 15, Data(config));
    assert PropertiesOf(video, config, s) == [scale, pts] + (if video then [marking] else []) + [setup];
    assert FrameProperties(video, config, s) == [scale] + (if video then [marking] else []) + [setup, pts];
    IdsRise(video, config, s);
    assert Arranges(PropertiesOf(video, config, s), FrameProperties(video, config, s)) by {
      hide PropertiesOf, FrameProperties, Rising;
      SameBag(scale, pts, if video then [marking] else [], setup);
    }
  }

  lemma IdsRise(video: bool, config: seq<Byte>, s: Sample)
    requires s.Bounded() && s.presentation >= 0
    ensures Rising(FrameProperties(video, config, s))
  {
  }

  lemma SameBag<T>(a: T, b: T, c: seq<T>, d: T)
    ensures multiset([a, b] + c + [d]) == multiset([a] + c + [d, b])
  {
    assert multiset([a, b] + c + [d]) == multiset{a, b} + multiset(c) + multiset{d};
    assert multiset([a] + c + [d, b]) == multiset{a} + multiset(c) + multiset{d, b};
  }

  lemma BlockOf(video: bool, config: seq<Byte>, s: Sample)
    requires s.Bounded() && s.presentation >= 0 && |config| <= 65535
    ensures var ps := FrameProperties(video, config, s);
      AllTyped(ps) && Rising(ps) && |Block(ps)| == PropertyBytes(video, |config|, s)
  {
    hide Block, Entry;
    var ps := FrameProperties(video, config, s);
    EmptyBlock();
    LastEntry(ps[..1]);
    LastEntry(ps[..2]);
    LastEntry(ps[..3]);
    assert ps[..3][..2] == ps[..2] && ps[..2][..1] == ps[..1] && ps[..1][..0] == [];
    if video {
      LastEntry(ps);
    } else {
      assert ps[..3] == ps;
    }
  }

  lemma EmptyBlock()
    ensures Block([]) == []
  {
  }

  lemma LastEntry(ps: seq<Property>)
    requires ps != [] && Rising(ps) && AllTyped(ps)
    ensures var n := |ps| - 1;
      var p := ps[n];
      |Block(ps)| == |Block(ps[..n])| + Vi64.Length(p.id - LastId(ps[..n])) +
        match p.value
        case Integer(v) => Vi64.Length(v)
        case Data(bytes) => Vi64.Length(|bytes|) + |bytes|
  {
    hide Vi64.Length;
  }

  lemma PropertiesExactly(video: bool, config: seq<Byte>, s: Sample)
    requires s.Bounded() && s.presentation >= 0
    ensures Serialize(PropertiesOf(video, config, s)).Some? <==>
      |config| <= 65535 && PropertyBytes(video, |config|, s) <= 65536
  {
    hide Serialize, Block, Vi64.Length;
    var ps, sorted := PropertiesOf(video, config, s), FrameProperties(video, config, s);
    InOrder(video, config, s);
    ByIdSorts(ps);
    SameMembers(ps, sorted);
    if Serialize(ps).Some? {
      SerializesExactly(ps, Serialize(ps).value);
      ConfigFits(video, config, s);
      var other :| Arranges(ps, other) && AllTyped(other) && Serialize(ps).value == Block(other);
      RisingIsUnique(other, sorted);
      BlockOf(video, config, s);
    } else if |config| <= 65535 {
      BlockOf(video, config, s);
      SerializesExactly(ps, Block(sorted));
    }
  }

  lemma ConfigFits(video: bool, config: seq<Byte>, s: Sample)
    requires s.Bounded() && s.presentation >= 0 && AllTyped(PropertiesOf(video, config, s))
    ensures |config| <= 65535
  {
    var p := Property(if video then 13 else 15, Data(config));
    assert p in PropertiesOf(video, config, s);
    assert p.WellTyped();
  }

  // ---- one sample

  /** What every sample must be; the encoder goes on in decode time, and never back. */
  ghost predicate Usable(e: Encoder, s: Sample) {
    s.track == e.track && s.timescale == e.timescale && e.timescale > 0 && s.presentation >= 0 && s.duration > 0 &&
    0 < |s.bytes| <= 16777216 && s.decode + s.duration < TwoTo64 && (e.expected.Some? ==> e.expected.value <= s.decode)
  }

  /** A video frame that leans on one the subscriber does not have. */
  ghost predicate Undecodable(e: Encoder, s: Sample) {
    e.video && !s.independent && (e.waiting || (e.expected.Some? && e.expected.value != s.decode))
  }

  ghost predicate Representable(e: Encoder, s: Sample)
    requires s.presentation >= 0
  {
    HasTime(s.decode, s.timescale) && HasTime(s.presentation, s.timescale) && HasTime(s.duration, s.timescale) &&
    |e.config| <= 65535 && PropertyBytes(e.video, |e.config|, s) <= 65536
  }

  /** Where the object goes: a first one, a new group, or the next in its group. */
  ghost predicate At(e: Encoder, s: Sample, group: nat, id: nat) {
    if !e.started then group == e.group && id == 0
    else if e.video && !s.independent then group == e.group && id == e.id
    else group == e.group + 1 && id == 0
  }

  /** There is an id for it: neither the last group nor the last object id can be passed. */
  ghost predicate Numberable(e: Encoder, s: Sample) {
    if !e.started then true else if e.video && !s.independent then e.id != MaxU64 else e.group != MaxU64
  }

  ghost predicate IsFrame(e: Encoder, s: Sample, f: Fragment)
    requires s.Bounded() && s.presentation >= 0
  {
    f.sample == s && At(e, s, f.group, f.id) && IsTime(f.startUs, s.decode, s.timescale) &&
    IsTime(f.presentationUs, s.presentation, s.timescale) && IsTime(f.durationUs, s.duration, s.timescale) &&
    f.keyframe == (e.video && s.independent) && f.sap == (if s.independent then 1 else 0) &&
    var block := Serialize(f.properties);
    block.Some? && ReadBlock(0, block.value) == Some(FrameProperties(e.video, e.config, s))
  }

  /**
   * A sample is skipped exactly when it is usable but not decodable, becomes an object
   * exactly when it is usable, decodable, representable and can be numbered, and throws
   * otherwise; the object states the sample's own times, marks and properties.
   */
  lemma FrameExactly(e: Encoder, s: Sample)
    requires s.Bounded()
    ensures var (next, made) := EncodeOne(e, s);
      (made.Skipped? <==> Usable(e, s) && Undecodable(e, s)) &&
      (made.Object? <==> Usable(e, s) && !Undecodable(e, s) && Representable(e, s) && Numberable(e, s)) &&
      (made.Skipped? ==> next == e.(expected := Some(s.decode + s.duration), waiting := true)) &&
      (made.Object? ==>
         IsFrame(e, s, made.fragment) &&
         next == e.(expected := Some(s.decode + s.duration), waiting := false, started := true,
                    group := made.fragment.group, id := made.fragment.id + 1)) &&
      (!Usable(e, s) ==> next == e)
  {
    hide Microseconds, HasTime, IsTime, PropertyBytes, Serialize, PropertiesOf, FrameProperties, ReadBlock;
    if e.timescale > 0 && Acceptable(e, s) {
      TimesExactly(s);
      PropertiesExactly(e.video, e.config, s);
      if Serialize(PropertiesOf(e.video, e.config, s)).Some? {
        PropertiesRead(e.video, e.config, s);
      }
    }
  }

  lemma TimesExactly(s: Sample)
    requires s.timescale > 0 && s.presentation >= 0
    ensures var start, pts, length :=
        Microseconds(s.decode, s.timescale), Microseconds(s.presentation, s.timescale), Microseconds(s.duration, s.timescale);
      (start.Some? <==> HasTime(s.decode, s.timescale)) && (start.Some? ==> IsTime(start.value, s.decode, s.timescale)) &&
      (pts.Some? <==> HasTime(s.presentation, s.timescale)) && (pts.Some? ==> IsTime(pts.value, s.presentation, s.timescale)) &&
      (length.Some? <==> HasTime(s.duration, s.timescale)) && (length.Some? ==> IsTime(length.value, s.duration, s.timescale))
  {
    hide Microseconds, HasTime, IsTime;
    TimeExactly(s.decode, s.timescale);
    TimeExactly(s.presentation, s.timescale);
    TimeExactly(s.duration, s.timescale);
  }

  lemma TimeExactly(ticks: nat, timescale: nat)
    requires timescale > 0
    ensures var us := Microseconds(ticks, timescale);
      (us.Some? <==> HasTime(ticks, timescale)) && (us.Some? ==> IsTime(us.value, ticks, timescale))
  {
    var us := Microseconds(ticks, timescale);
    MicrosecondsExactly(ticks, timescale, if us.Some? then us.value else 0);
  }

  lemma PropertiesRead(video: bool, config: seq<Byte>, s: Sample)
    requires s.Bounded() && s.presentation >= 0
    requires Serialize(PropertiesOf(video, config, s)).Some?
    ensures ReadBlock(0, Serialize(PropertiesOf(video, config, s)).value) == Some(FrameProperties(video, config, s))
  {
    hide Serialize, Block, ReadBlock, PropertiesOf, FrameProperties;
    var ps := PropertiesOf(video, config, s);
    SerializesExactly(ps, Serialize(ps).value);
    InOrder(video, config, s);
    RisingIsUnique(ReadBlock(0, Serialize(ps).value).value, FrameProperties(video, config, s));
  }
}
