/**
 * What the splitter reads, in terms of the bytes: which run a traf states, where its
 * bytes are, and exactly which fragments can be split.
 */
module TrafSplitFields {
  import opened Bytes
  import opened Mp4Boxes
  import opened CmafRebase
  import opened RunFormat
  import opened TrafSplit
  import CmafRebaseSuccess
  import F = FragmentReader

  // ---- the sizes of a run

  function Width(flags: nat, k: nat): nat {
    if HasBit(flags, k) then 4 else 0
  }

  /** The bytes from one sample's entry to the next. */
  function Stride(flags: nat): nat {
    Width(flags, 8) + Width(flags, 9) + Width(flags, 10) + Width(flags, 11)
  }

  /** A sample size: the word behind the duration in its entry, or the default; never nothing. */
  ghost predicate SizeStands(b: seq<Byte>, entry: nat, flags: nat, default_: nat, size: nat) {
    size != 0 &&
    if HasBit(flags, 9) then size <= MaxU32 && Stands(b, entry + Width(flags, 8), BE(4, size)) else size == default_
  }

  ghost predicate SizesStand(b: seq<Byte>, at: nat, flags: nat, default_: nat, sizes: seq<nat>) {
    forall i | 0 <= i < |sizes| :: SizeStands(b, at + Stride(flags) * i, flags, default_, sizes[i])
  }

  lemma SizeExactly(b: seq<Byte>, entry: nat, flags: nat, default_: nat, size: nat)
    ensures var r := F.Take(b, entry + Width(flags, 8), HasBit(flags, 9), default_);
      SizeStands(b, entry, flags, default_, size) <==> r.Some? && r.value.0 == size && size != 0
    ensures var r := F.Take(b, entry + Width(flags, 8), HasBit(flags, 9), default_);
      r.Some? ==> r.value.1 == entry + Width(flags, 8) + Width(flags, 9)
  {
    hide BE, FromBE, Stands;
    Pow256Values();
    var at := entry + Width(flags, 8);
    if HasBit(flags, 9) {
      if at + 4 <= |b| {
        FromBEBound(b[at..at + 4]);
      }
      if size <= MaxU32 {
        StandsWord(b, at, 4, size);
      }
    }
  }

  lemma {:induction false} SizesExactly(b: seq<Byte>, at: nat, flags: nat, default_: nat, sizes: seq<nat>)
    requires SizesStand(b, at, flags, default_, sizes)
    ensures Sum(sizes) >= 0 && SizesTo(b, at, flags, default_, |sizes|) == Some((Sum(sizes), at + Stride(flags) * |sizes|))
  {
    hide HasBit, F.Take, SizeStands, Stride;
    SumNonNegative(sizes);
    NoSizes(b, at, flags, default_);
    if sizes != [] {
      var n := |sizes| - 1;
      SizesPrefix(b, at, flags, default_, sizes);
      SizesExactly(b, at, flags, default_, sizes[..n]);
      var entry := at + Stride(flags) * n;
      assert SizeStands(b, entry, flags, default_, sizes[n]);
      SizeExactly(b, entry, flags, default_, sizes[n]);
      SizesNext(b, at, flags, default_, n, Sum(sizes[..n]), entry);
    }
  }

  lemma SizesPrefix(b: seq<Byte>, at: nat, flags: nat, default_: nat, sizes: seq<nat>)
    requires SizesStand(b, at, flags, default_, sizes) && sizes != []
    ensures SizesStand(b, at, flags, default_, sizes[..|sizes| - 1])
  {
    hide SizeStands, Stride;
  }

  lemma SizesNext(b: seq<Byte>, at: nat, flags: nat, default_: nat, i: nat, total: nat, entry: nat)
    requires SizesTo(b, at, flags, default_, i) == Some((total, entry))
    ensures var size := F.Take(b, entry + Width(flags, 8), HasBit(flags, 9), default_);
      SizesTo(b, at, flags, default_, i + 1) ==
      if size.None? || size.value.0 == 0 then None
      else Some((total + size.value.0, entry + Stride(flags)))
  {
    hide HasBit, F.Take, FromBE;
    NextSize(b, at, flags, default_, i, total, entry);
    SizeExactly(b, entry, flags, default_, 0);
  }

  /** Sizes that are read stand there. */
  lemma {:induction false} SizesRead(b: seq<Byte>, at: nat, flags: nat, default_: nat, n: nat) returns (sizes: seq<nat>)
    requires SizesTo(b, at, flags, default_, n).Some?
    ensures |sizes| == n && SizesStand(b, at, flags, default_, sizes)
  {
    hide HasBit, F.Take, SizeStands, Stride;
    sizes := [];
    if n > 0 {
      SizesBefore(b, at, flags, default_, n);
      sizes := SizesRead(b, at, flags, default_, n - 1);
      SizesExactly(b, at, flags, default_, sizes);
      var entry := at + Stride(flags) * (n - 1);
      SizesNext(b, at, flags, default_, n - 1, Sum(sizes), entry);
      var size := F.Take(b, entry + Width(flags, 8), HasBit(flags, 9), default_).value.0;
      SizeExactly(b, entry, flags, default_, size);
      sizes := sizes + [size];
    }
  }

  lemma SizesBefore(b: seq<Byte>, at: nat, flags: nat, default_: nat, n: nat)
    requires n > 0 && SizesTo(b, at, flags, default_, n).Some?
    ensures SizesTo(b, at, flags, default_, n - 1).Some?
  {
  }

  // ---- the default size

  /** A track of this id that has a default size, and none behind it has. */
  ghost predicate Decides(tracks: seq<TrackDefault>, id: nat, i: nat) {
    i < |tracks| && HasSize(tracks[i], id) && forall k | i < k < |tracks| :: !HasSize(tracks[k], id)
  }

  predicate HasSize(t: TrackDefault, id: nat) {
    t.id == id && t.size.Some?
  }

  ghost predicate IsTrackDefault(tracks: seq<TrackDefault>, id: nat, size: nat) {
    (exists i: nat :: Decides(tracks, id, i) && tracks[i].size == Some(size)) ||
    (size == 0 && forall k | 0 <= k < |tracks| :: !HasSize(tracks[k], id))
  }

  lemma {:induction false} DefaultExactly(tracks: seq<TrackDefault>, id: nat, size: nat)
    ensures DefaultSize(tracks, id) == size <==> IsTrackDefault(tracks, id, size)
  {
    if tracks != [] {
      var n := |tracks| - 1;
      var before := tracks[..n];
      DefaultExactly(before, id, size);
      if HasSize(tracks[n], id) {
        assert Decides(tracks, id, n);
      } else {
        assert forall i: nat | i < n :: Decides(before, id, i) <==> Decides(tracks, id, i);
      }
    }
  }

  // ---- the run of a traf

  /** The tfhd at `head` has no base offset; what it states as default size, or else its track has. */
  ghost predicate DefaultStands(b: seq<Byte>, head: nat, tracks: seq<TrackDefault>, default_: nat)
    requires head + 8 <= |b|
  {
    var flags := FromBE(b[head + 1..head + 4]);
    !HasBit(flags, 0) &&
    if HasBit(flags, 4) then default_ <= MaxU32 && Stands(b, head + 8 + Width(flags, 1) + Width(flags, 3), BE(4, default_))
    else IsTrackDefault(tracks, FromBE(b[head + 4..head + 8]), default_)
  }

  lemma TrafDefaultExactly(b: seq<Byte>, head: nat, tracks: seq<TrackDefault>, default_: nat)
    requires head + 8 <= |b| && !HasBit(FromBE(b[head + 1..head + 4]), 0)
    ensures TrafDefault(b, head, tracks) == Some(default_) <==> DefaultStands(b, head, tracks, default_)
  {
    hide BE, FromBE, Stands, HasBit, DefaultSize, IsTrackDefault;
    Pow256Values();
    var flags := FromBE(b[head + 1..head + 4]);
    var at := head + 8 + Width(flags, 1) + Width(flags, 3);
    DefaultExactly(tracks, FromBE(b[head + 4..head + 8]), default_);
    if at + 4 <= |b| {
      FromBEBound(b[at..at + 4]);
    }
    if default_ <= MaxU32 {
      StandsWord(b, at, 4, default_);
    }
  }

  function EndOf(previous: Option<nat>): int {
    if previous.Some? then previous.value else 0
  }

  /** The traf has one run and no saio, and the tfhd and trun are these; both have their fixed fields. */
  ghost predicate HasOneRun(t: Node, h: nat, k: nat) {
    IsFirst(t.kids, "tfhd", h) && k < |t.kids| &&
    (forall i | 0 <= i < |t.kids| :: (t.kids[i].name == "trun" <==> i == k) && t.kids[i].name != "saio") &&
    |Payload(t.kids[h])| >= 8 && |Payload(t.kids[k])| >= 8
  }

  /** Where the payload of a box of a traf is. */
  function BodyAt(moof: Node, j: nat, k: nat): nat
    requires j < |moof.kids| && k < |moof.kids[j].kids|
  {
    KidAt(moof, j) + KidAt(moof.kids[j], k) + moof.kids[j].kids[k].head
  }

  /** The run takes the bytes its offset and its sample sizes say; `base` is the end of the run before. */
  ghost predicate RunTakes(b: seq<Byte>, head: nat, run: nat, base: int, tracks: seq<TrackDefault>, default_: nat,
                           sizes: seq<nat>, span: Span) {
    head + 8 <= |b| && run + 12 <= |b| && DefaultStands(b, head, tracks, default_) &&
    var headFlags, flags := FromBE(b[head + 1..head + 4]), FromBE(b[run + 1..run + 4]);
    HasBit(flags, 0) && |sizes| == FromBE(b[run + 4..run + 8]) &&
    SizesStand(b, run + 12 + Width(flags, 2), flags, default_, sizes) && span.total == Sum(sizes) &&
    span.position == (if HasBit(headFlags, 17) then 0 else base) + Signed32(FromBE(b[run + 8..run + 12]))
  }

  ghost predicate TrafTakes(b: seq<Byte>, moof: Node, j: nat, base: int, tracks: seq<TrackDefault>, span: Span)
    requires j < |moof.kids|
  {
    exists h: nat, k: nat, default_: nat, sizes: seq<nat> ::
      HasOneRun(moof.kids[j], h, k) &&
      RunTakes(b, BodyAt(moof, j, h), BodyAt(moof, j, k), base, tracks, default_, sizes, span)
  }

  lemma {:induction false} CountExactly(kids: seq<Node>, name: string)
    ensures CountNamed(kids, name) == 0 <==> forall i | 0 <= i < |kids| :: kids[i].name != name
    ensures CountNamed(kids, name) == 1 <==>
      IndexOf(kids, name) < |kids| && forall i | 0 <= i < |kids| :: kids[i].name == name <==> i == IndexOf(kids, name)
  {
    if kids != [] {
      var n := |kids| - 1;
      var before := kids[..n];
      CountExactly(before, name);
      FirstIs(kids, name, IndexOf(kids, name));
      if IndexOf(before, name) < n {
        assert before[IndexOf(before, name)].name == name;
        FirstIs(kids, name, IndexOf(before, name));
      }
    }
  }

  lemma OneRunExactly(t: Node, h: nat, k: nat)
    ensures HasOneRun(t, h, k) <==>
      h == IndexOf(t.kids, "tfhd") && k == IndexOf(t.kids, "trun") && Find(t.kids, "tfhd").Some? &&
      |Payload(Find(t.kids, "tfhd").value)| >= 8 && CountNamed(t.kids, "trun") == 1 && Find(t.kids, "saio").None? &&
      Find(t.kids, "trun").Some? && |Payload(Find(t.kids, "trun").value)| >= 8
  {
    hide Payload, CountNamed;
    FirstIs(t.kids, "tfhd", h);
    CountExactly(t.kids, "trun");
  }

  /** The span that is read is the one the traf's own boxes state. */
  lemma SpanExactly(b: seq<Byte>, moof: Node, j: nat, previous: Option<nat>, tracks: seq<TrackDefault>, span: Span)
    requires j < |moof.kids|
    ensures SpanOf(b, moof, j, previous, tracks) == Some(span) <==>
      TrafTakes(b, moof, j, EndOf(previous), tracks, span)
  {
    hide HasBit, FromBE, CountNamed, SizesTo, TrafDefault, HasOneRun, RunTakes, Payload, KidAt, Signed32;
    var t := moof.kids[j];
    var h, k := IndexOf(t.kids, "tfhd"), IndexOf(t.kids, "trun");
    forall h': nat, k': nat
      ensures HasOneRun(t, h', k') ==> h' == h && k' == k
    {
      OneRunExactly(t, h', k');
    }
    OneRunExactly(t, h, k);
    if HasOneRun(t, h, k) {
      RunExactly(b, moof, j, h, k, previous, tracks, span);
    }
  }

  lemma RunExactly(b: seq<Byte>, moof: Node, j: nat, h: nat, k: nat, previous: Option<nat>, tracks: seq<TrackDefault>,
                   span: Span)
    requires j < |moof.kids| && HasOneRun(moof.kids[j], h, k)
    ensures SpanOf(b, moof, j, previous, tracks) == Some(span) <==>
      exists default_: nat, sizes: seq<nat> ::
        RunTakes(b, BodyAt(moof, j, h), BodyAt(moof, j, k), EndOf(previous), tracks, default_, sizes, span)
  {
    hide HasBit, FromBE, CountNamed, SizesTo, TrafDefault, DefaultStands, SizesStand, HasOneRun, Payload, KidAt, Signed32, Sum;
    OneRunExactly(moof.kids[j], h, k);
    var base := EndOf(previous);
    var head, run := BodyAt(moof, j, h), BodyAt(moof, j, k);
    if SpanOf(b, moof, j, previous, tracks) == Some(span) {
      var default_ := TrafDefault(b, head, tracks).value;
      TrafDefaultExactly(b, head, tracks, default_);
      var flags := FromBE(b[run + 1..run + 4]);
      var sizes := SizesRead(b, run + 12 + Width(flags, 2), flags, default_, FromBE(b[run + 4..run + 8]));
      SizesExactly(b, run + 12 + Width(flags, 2), flags, default_, sizes);
      assert RunTakes(b, head, run, base, tracks, default_, sizes, span);
    }
    if default_: nat, sizes: seq<nat> :| RunTakes(b, head, run, base, tracks, default_, sizes, span) {
      NoBase(b, head, tracks, default_);
      TrafDefaultExactly(b, head, tracks, default_);
      var flags := FromBE(b[run + 1..run + 4]);
      SizesExactly(b, run + 12 + Width(flags, 2), flags, default_, sizes);
    }
  }

  lemma NoBase(b: seq<Byte>, head: nat, tracks: seq<TrackDefault>, default_: nat)
    requires head + 8 <= |b| && DefaultStands(b, head, tracks, default_)
    ensures !HasBit(FromBE(b[head + 1..head + 4]), 0)
  {
    hide HasBit, FromBE;
  }

  // ---- the whole fragment

  function End(s: Span): int {
    s.position + s.total
  }

  /** Where the run of this rank starts counting. */
  function BaseOf(spans: seq<Span>, rank: nat): int
    requires rank <= |spans|
  {
    if rank == 0 then 0 else End(spans[rank - 1])
  }

  /** The header of a mdat box, eight bytes or sixteen, ends at or before a place. */
  predicate HeaderEndsBy(mdat: seq<Byte>, place: int)
    requires |mdat| >= 8
  {
    8 <= place && (FromBE(mdat[..4]) == 1 ==> 16 <= place)
  }

  function Rank(moof: Node, j: nat): nat
    requires j <= |moof.kids|
  {
    CountTrafs(moof.kids[..j])
  }

  /** Traf `j` takes the span of its rank, all of it payload of the mdat, and its data offset can be overwritten. */
  ghost predicate TakesItsSpan(b: seq<Byte>, mdat: seq<Byte>, moof: Node, j: nat, tracks: seq<TrackDefault>, spans: seq<Span>)
    requires j < |moof.kids| && |mdat| >= 8
  {
    var rank := Rank(moof, j);
    rank < |spans| && TrafTakes(b, moof, j, BaseOf(spans, rank), tracks, spans[rank]) && Patchable(moof.kids[j]) &&
    HeaderEndsBy(mdat, spans[rank].position - |b|) && End(spans[rank]) <= |b| + |mdat|
  }

  ghost predicate Takes(b: seq<Byte>, mdat: seq<Byte>, moof: Node, n: nat, tracks: seq<TrackDefault>, spans: seq<Span>)
    requires n <= |moof.kids| && |mdat| >= 8
  {
    |spans| == Rank(moof, n) &&
    forall j | 0 <= j < n && moof.kids[j].name == "traf" :: TakesItsSpan(b, mdat, moof, j, tracks, spans)
  }

  lemma RankNext(moof: Node, n: nat)
    requires 0 < n <= |moof.kids|
    ensures Rank(moof, n) == Rank(moof, n - 1) + if moof.kids[n - 1].name == "traf" then 1 else 0
  {
    assert moof.kids[..n][..n - 1] == moof.kids[..n - 1];
  }

  lemma {:induction false} RankRises(moof: Node, i: nat, n: nat)
    requires i <= n <= |moof.kids|
    ensures Rank(moof, i) <= Rank(moof, n) && (i < n && moof.kids[i].name == "traf" ==> Rank(moof, i) < Rank(moof, n))
    decreases n
  {
    if i < n {
      RankNext(moof, n);
      RankRises(moof, i, n - 1);
    }
  }

  /** Adding the span of the next traf, or none when the next child is no traf. */
  lemma TakesNext(b: seq<Byte>, mdat: seq<Byte>, moof: Node, n: nat, tracks: seq<TrackDefault>, before: seq<Span>,
                  spans: seq<Span>)
    requires 0 < n <= |moof.kids| && |mdat| >= 8 && before <= spans && |before| == Rank(moof, n - 1)
    requires |spans| == Rank(moof, n)
    ensures Takes(b, mdat, moof, n, tracks, spans) <==>
      Takes(b, mdat, moof, n - 1, tracks, before) &&
      (moof.kids[n - 1].name == "traf" ==> TakesItsSpan(b, mdat, moof, n - 1, tracks, spans))
  {
    hide TrafTakes, Patchable, Rank, MdatHead;
    forall j | 0 <= j < n - 1 && moof.kids[j].name == "traf"
      ensures TakesItsSpan(b, mdat, moof, j, tracks, spans) <==> TakesItsSpan(b, mdat, moof, j, tracks, before)
    {
      RankRises(moof, j, n - 1);
    }
  }

  lemma {:induction false} PartsExactly(b: seq<Byte>, mdat: seq<Byte>, moof: Node, mfhd: Node, tracks: seq<TrackDefault>,
                                        n: nat, spans: seq<Span>)
    requires n <= |moof.kids| && |mdat| >= 8 && MdatHead(mdat) <= |mdat| && Takes(b, mdat, moof, n, tracks, spans)
    ensures var r := PartsTo(b, mdat, moof, mfhd, tracks, n);
      r.Some? && (r.value.1 == None <==> spans == []) && (spans != [] ==> r.value.1 == Some(End(spans[|spans| - 1]))) &&
      |r.value.0| == |spans| &&
      forall j | 0 <= j < n && moof.kids[j].name == "traf" ::
        var rank := Rank(moof, j);
        rank < |spans| && Patchable(moof.kids[j]) && 0 <= spans[rank].position - |b| && End(spans[rank]) <= |b| + |mdat| &&
        r.value.0[rank] == PartOf(mdat, mfhd, moof.kids[j], spans[rank].position - |b|, spans[rank].total)
  {
    hide TrafTakes, Patchable, Rank, FromBE, SpanOf, PartOf;
    if n > 0 {
      RankNext(moof, n);
      var before := spans[..Rank(moof, n - 1)];
      TakesNext(b, mdat, moof, n, tracks, before, spans);
      PartsExactly(b, mdat, moof, mfhd, tracks, n - 1, before);
      if moof.kids[n - 1].name == "traf" {
        var r := PartsTo(b, mdat, moof, mfhd, tracks, n - 1);
        SpanExactly(b, moof, n - 1, r.value.1, tracks, spans[|spans| - 1]);
      }
    } else {
      NoRank(moof);
    }
  }

  lemma NoRank(moof: Node)
    ensures Rank(moof, 0) == 0
  {
  }

  lemma {:induction false} PartsTake(b: seq<Byte>, mdat: seq<Byte>, moof: Node, mfhd: Node, tracks: seq<TrackDefault>,
                                     n: nat) returns (spans: seq<Span>)
    requires n <= |moof.kids| && |mdat| >= 8 && MdatHead(mdat) <= |mdat| && PartsTo(b, mdat, moof, mfhd, tracks, n).Some?
    ensures Takes(b, mdat, moof, n, tracks, spans)
  {
    hide TrafTakes, Patchable, Rank, FromBE, SpanOf, PartOf;
    spans := [];
    if n > 0 {
      spans := PartsTake(b, mdat, moof, mfhd, tracks, n - 1);
      var before := spans;
      PartsExactly(b, mdat, moof, mfhd, tracks, n - 1, before);
      RankNext(moof, n);
      if moof.kids[n - 1].name == "traf" {
        var previous := PartsTo(b, mdat, moof, mfhd, tracks, n - 1).value.1;
        var span := SpanOf(b, moof, n - 1, previous, tracks).value;
        SpanExactly(b, moof, n - 1, previous, tracks, span);
        spans := before + [span];
      }
      TakesNext(b, mdat, moof, n, tracks, before, spans);
    } else {
      NoRank(moof);
    }
  }

  /**
   * A fragment of several tracks splits exactly when it has a mfhd and a whole mdat
   * header and each traf states a run inside the mdat; the part of a traf holds the
   * bytes of the run it states.
   */
  lemma SplitExactly(b: seq<Byte>, mdat: seq<Byte>, tracks: seq<TrackDefault>)
    requires Parse(b).Some? && Parse(b).value != [] && Parse(b).value[0].name == "moof" && CountTrafs(Parse(b).value[0].kids) > 1
    ensures var moof := Parse(b).value[0];
      Split(b, mdat, tracks).Some? <==>
        (exists i: nat :: IsFirst(moof.kids, "mfhd", i)) && |mdat| >= 8 && HeaderEndsBy(mdat, |mdat|) &&
        exists spans :: Takes(b, mdat, moof, |moof.kids|, tracks, spans)
  {
    hide Parse, Takes, PartsTo, FromBE;
    var moof := Parse(b).value[0];
    var i := IndexOf(moof.kids, "mfhd");
    FirstIs(moof.kids, "mfhd", i);
    if Split(b, mdat, tracks).Some? {
      var spans := PartsTake(b, mdat, moof, moof.kids[i], tracks, |moof.kids|);
    }
    if (exists i: nat :: IsFirst(moof.kids, "mfhd", i)) && |mdat| >= 8 && HeaderEndsBy(mdat, |mdat|) &&
       exists spans :: Takes(b, mdat, moof, |moof.kids|, tracks, spans) {
      var i': nat :| IsFirst(moof.kids, "mfhd", i');
      FirstIs(moof.kids, "mfhd", i');
      var spans :| Takes(b, mdat, moof, |moof.kids|, tracks, spans);
      PartsExactly(b, mdat, moof, moof.kids[i], tracks, |moof.kids|, spans);
    }
  }

  /** A fragment of one track or none is left as it is; bytes that do not start with a moof are refused. */
  lemma UnsplitExactly(b: seq<Byte>, mdat: seq<Byte>, tracks: seq<TrackDefault>)
    ensures var starts := Parse(b).Some? && Parse(b).value != [] && Parse(b).value[0].name == "moof";
      (!starts ==> Split(b, mdat, tracks).None?) &&
      (starts && (forall i, j | 0 <= i < j < |Parse(b).value[0].kids| ::
                    !(Parse(b).value[0].kids[i].name == "traf" && Parse(b).value[0].kids[j].name == "traf")) ==>
         Split(b, mdat, tracks) == Some([Part(b, mdat)]))
  {
    hide Parse, PartsTo;
    if Parse(b).Some? && Parse(b).value != [] {
      CmafRebaseSuccess.FewTrafs(Parse(b).value[0].kids);
    }
  }

  /** The parts of a fragment that splits: of each traf the bytes its boxes state, behind its own moof. */
  lemma PartsHoldRuns(b: seq<Byte>, mdat: seq<Byte>, tracks: seq<TrackDefault>) returns (spans: seq<Span>)
    requires Split(b, mdat, tracks).Some? && CountTrafs(Parse(b).value[0].kids) > 1
    ensures |mdat| >= 8
    ensures var moof, parts := Parse(b).value[0], Split(b, mdat, tracks).value;
      Takes(b, mdat, moof, |moof.kids|, tracks, spans) && Find(moof.kids, "mfhd").Some? && |parts| == |spans| &&
      forall j | 0 <= j < |moof.kids| && moof.kids[j].name == "traf" ::
        var rank, t, mfhd := Rank(moof, j), moof.kids[j], Find(moof.kids, "mfhd").value;
        rank < |spans| &&
        (Roomy(t) && Stated(mfhd) && NewOffset(mfhd, t) <= MaxU32 ==> CarriesRun(b, mdat, mfhd, t, spans[rank], parts[rank]))
  {
    hide Parse, Takes, PartsTo, MdatHead, Rank, CarriesRun, NewOffset, Roomy, Patchable, PartOf, Built, Stated, ToTheEnd;
    var moof := Parse(b).value[0];
    var i := IndexOf(moof.kids, "mfhd");
    var mfhd := moof.kids[i];
    spans := PartsTake(b, mdat, moof, mfhd, tracks, |moof.kids|);
    PartsExactly(b, mdat, moof, mfhd, tracks, |moof.kids|, spans);
    forall j | 0 <= j < |moof.kids| && moof.kids[j].name == "traf" && Roomy(moof.kids[j]) && Stated(mfhd) &&
               NewOffset(mfhd, moof.kids[j]) <= MaxU32
      ensures CarriesRun(b, mdat, mfhd, moof.kids[j], spans[Rank(moof, j)], Split(b, mdat, tracks).value[Rank(moof, j)])
    {
      ChildPlaced(b, i);
      ChildPlaced(b, j);
      var span := spans[Rank(moof, j)];
      PartStandsAlone(b, mdat, mfhd, moof.kids[j], span.position - |b|, span.total);
    }
  }
}
