/**
 * Which payloads can be rebased: a condition on the parsed boxes that a caller can
 * check beforehand, and that is exactly when the rebase answers true.
 */
module CmafRebaseSuccess {
  import opened Bytes
  import opened Mp4Boxes
  import opened CmafRebase

  // ---- the condition

  /** A version 0 decode time that does not stay within 32 bits. */
  predicate Outgrows(b: seq<Byte>, delta: nat) {
    |b| >= 8 && b[0] == 0 && (FromBE(b[4..8]) + delta) % TwoTo64 > MaxU32
  }

  /** The decode time box can be raised: a whole version 1 time, or a version 0 one that fits or can be widened. */
  predicate TimeMoves(c: Node, delta: nat) {
    (|Payload(c)| >= 12 && Payload(c)[0] == 1) ||
    (|Payload(c)| >= 8 && Payload(c)[0] == 0 && (Outgrows(Payload(c), delta) ==> c.head == 8 && |Payload(c)| == 8))
  }

  ghost predicate TrafTimeMoves(t: Node, delta: nat) {
    exists k: nat :: IsFirst(t.kids, "tfdt", k) && TimeMoves(t.kids[k], delta)
  }

  ghost predicate TrafWidens(t: Node, delta: nat) {
    exists k: nat :: IsFirst(t.kids, "tfdt", k) && Outgrows(Payload(t.kids[k]), delta)
  }

  /** How many of the first `n` children of a fragment at `at` widen a decode time ahead of a place. */
  ghost function WidenedBefore(m: Node, n: nat, at: nat, delta: nat, target: int): nat
    requires n <= |m.kids|
  {
    if n == 0 then 0
    else
      WidenedBefore(m, n - 1, at, delta, target) +
      if m.kids[n - 1].name == "traf" && WidensAhead(m.kids[n - 1], at + KidAt(m, n - 1), delta, target) then 1 else 0
  }

  /** The decode time box of a traf at `trafAt` widens, and starts ahead of a place. */
  ghost predicate WidensAhead(t: Node, trafAt: nat, delta: nat, target: int) {
    exists k: nat :: IsFirst(t.kids, "tfdt", k) && Outgrows(Payload(t.kids[k]), delta) && trafAt + KidAt(t, k) < target
  }

  /** The offsets of a traf are relative to the moof. */
  ghost predicate FromMoof(m: Node, t: Node) {
    exists k: nat :: IsFirst(t.kids, "tfhd", k) && |Payload(t.kids[k])| >= 4 &&
      var flags := FromBE(Payload(t.kids[k])[1..4]);
      !HasBit(flags, 0) &&
      (HasBit(flags, 17) || forall i, j | 0 <= i < j < |m.kids| :: !(m.kids[i].name == "traf" && m.kids[j].name == "traf"))
  }

  /** The data offset of a trun, if it has one, can be moved by what its target moves. */
  ghost predicate TrunMoves(c: Node, m: Node, at: nat, delta: nat) {
    var b := Payload(c);
    |b| >= 8 &&
    (HasBit(FromBE(b[1..4]), 0) ==>
       |b| >= 12 &&
       var offset := Signed32(FromBE(b[8..12]));
       at + offset >= 0 && offset + 4 * WidenedBefore(m, |m.kids|, at, delta, at + offset) <= 0x7FFF_FFFF)
  }

  /** A saio holds the entries it counts, and 32-bit entries stay 32-bit. */
  ghost predicate SaioMoves(c: Node, m: Node, at: nat, delta: nat) {
    var b := Payload(c);
    |b| >= 8 &&
    var start := if HasBit(FromBE(b[1..4]), 0) then 16 else 8;
    start <= |b| &&
    var count, width := FromBE(b[start - 4..start]), if b[0] == 0 then 4 else 8;
    width * count <= |b| - start &&
    (width == 4 ==> EntriesStay(b[start..], count, m, at, delta))
  }

  ghost predicate EntriesStay(entries: seq<Byte>, count: nat, m: Node, at: nat, delta: nat) {
    forall e: nat | e < count :: EntryStays(entries, e, m, at, delta)
  }

  /** A 32-bit entry, moved, still fits. */
  ghost predicate EntryStays(entries: seq<Byte>, e: nat, m: Node, at: nat, delta: nat) {
    4 * e + 4 <= |entries| &&
    var entry := FromBE(entries[4 * e..4 * e + 4]);
    (entry + 4 * WidenedBefore(m, |m.kids|, at, delta, (at + entry) % TwoTo64)) % TwoTo64 <= MaxU32
  }

  /** A fragment at `at`: its times can be raised, and when that widens it, its headers and offsets can follow. */
  ghost predicate FragmentMoves(m: Node, at: nat, delta: nat) {
    (forall t | t in m.kids && t.name == "traf" :: TrafTimeMoves(t, delta)) &&
    ((exists t | t in m.kids && t.name == "traf" :: TrafWidens(t, delta)) ==>
       m.head == 8 &&
       forall t | t in m.kids && t.name == "traf" ::
         t.head == 8 && FromMoof(m, t) &&
         forall c | c in t.kids ::
           (c.name == "trun" ==> TrunMoves(c, m, at, delta)) && (c.name == "saio" ==> SaioMoves(c, m, at, delta)))
  }

  /** Some fragment has a traf, and every fragment can be raised. */
  ghost predicate Rebasable(nodes: seq<Node>, delta: nat) {
    (exists i, j :: 0 <= i < |nodes| && 0 <= j < |nodes[i].kids| && nodes[i].name == "moof" && nodes[i].kids[j].name == "traf") &&
    forall i | 0 <= i < |nodes| && nodes[i].name == "moof" :: FragmentMoves(nodes[i], |Flat(nodes[..i])|, delta)
  }

  // ---- times

  lemma TimeExactly(t: Node, delta: nat)
    requires forall c | c in t.kids :: c.head <= |c.all|
    ensures !EditTraf(t, delta).Refuse? <==> TrafTimeMoves(t, delta)
    ensures EditTraf(t, delta).Widen? <==> TrafWidens(t, delta) && !EditTraf(t, delta).Refuse?
  {
    hide FromBE, BE, Put;
    var k := IndexOf(t.kids, "tfdt");
    FirstIs(t.kids, "tfdt", k);
    forall j: nat
      ensures IsFirst(t.kids, "tfdt", j) ==> j == k
    {
      FirstIs(t.kids, "tfdt", j);
    }
    if k < |t.kids| {
      EditExactly(t.kids[k], delta);
    }
  }

  lemma EditExactly(c: Node, delta: nat)
    requires c.head <= |c.all|
    ensures !EditTime(c, delta).Refuse? <==> TimeMoves(c, delta)
    ensures EditTime(c, delta).Widen? <==> TimeMoves(c, delta) && Outgrows(Payload(c), delta)
  {
    hide FromBE, BE, Put;
  }

  /** All trafs among the first `n` children can be raised exactly when the widenings are known. */
  lemma {:induction false} WideningsExactly(m: Node, n: nat, at: nat, delta: nat)
    requires n <= |m.kids| && Headed(m.kids)
    ensures Widenings(m, n, at, delta).Some? <==>
      forall i | 0 <= i < n && m.kids[i].name == "traf" :: !EditTraf(m.kids[i], delta).Refuse?
    ensures Widenings(m, n, at, delta).Some? ==>
      var ws := Widenings(m, n, at, delta).value;
      (ws != [] <==> exists i | 0 <= i < n && m.kids[i].name == "traf" :: EditTraf(m.kids[i], delta).Widen?) &&
      forall target: int :: CountBefore(ws, target) == WidenedBefore(m, n, at, delta, target)
    decreases n
  {
    hide EditTraf, KidAt, Outgrows, CountBefore;
    if n == 0 {
      forall target: int
        ensures CountBefore([], target) == 0
      {
        NothingBefore(target);
      }
    } else {
      WideningsExactly(m, n - 1, at, delta);
      if Widenings(m, n, at, delta).Some? {
        var t := m.kids[n - 1];
        forall target: int
          ensures CountBefore(Widenings(m, n, at, delta).value, target) == WidenedBefore(m, n, at, delta, target)
        {
          CountedBefore(m, n, at, delta, target);
        }
      }
    }
  }

  lemma NothingBefore(target: int)
    ensures CountBefore([], target) == 0
  {
  }

  lemma CountedBefore(m: Node, n: nat, at: nat, delta: nat, target: int)
    requires 0 < n <= |m.kids| && Headed(m.kids) && Widenings(m, n, at, delta).Some?
    requires CountBefore(Widenings(m, n - 1, at, delta).value, target) == WidenedBefore(m, n - 1, at, delta, target)
    ensures CountBefore(Widenings(m, n, at, delta).value, target) == WidenedBefore(m, n, at, delta, target)
  {
    hide KidAt, Outgrows;
    var t := m.kids[n - 1];
    if t.name == "traf" {
      TimeExactly(t, delta);
      var k := IndexOf(t.kids, "tfdt");
      forall j: nat
        ensures IsFirst(t.kids, "tfdt", j) <==> j == k && k < |t.kids|
      {
        FirstIs(t.kids, "tfdt", j);
      }
      var before := Widenings(m, n - 1, at, delta).value;
      if EditTraf(t, delta).Widen? {
        var w := Widening(at + KidAt(m, n - 1) + KidAt(t, k), EditTraf(t, delta).value);
        assert (before + [w])[..|before|] == before;
      }
    }
  }

  // ---- offsets

  /** Widenings that count as the fragment's do. */
  ghost predicate Counts(ws: seq<Widening>, m: Node, at: nat, delta: nat) {
    forall target: int :: CountBefore(ws, target) == WidenedBefore(m, |m.kids|, at, delta, target)
  }

  lemma TrunExactly(c: Node, m: Node, at: nat, delta: nat, ws: seq<Widening>)
    requires c.head <= |c.all| && Counts(ws, m, at, delta)
    ensures EditTrun(c, c.all, at, ws).Some? <==> TrunMoves(c, m, at, delta)
  {
    hide FromBE, BE, Put, HasBit, CountBefore, WidenedBefore, Signed32;
    if |Payload(c)| >= 12 {
      var offset := Signed32(FromBE(Payload(c)[8..12]));
      assert CountBefore(ws, at + offset) == WidenedBefore(m, |m.kids|, at, delta, at + offset);
    }
  }

  lemma {:induction false} EntriesExactly(entries: seq<Byte>, width: nat, i: nat, m: Node, at: nat, delta: nat, ws: seq<Widening>)
    requires width > 0 && width * i <= |entries|
    ensures ShiftEntries(entries, width, i, at, ws).Some? <==>
      forall e: nat | e < i :: EntryShifts(entries, width, e, at, ws)
  {
    hide FromBE, BE, ShiftEntry;
    if i > 0 {
      assert width * i == width * (i - 1) + width;
      EntriesExactly(entries, width, i - 1, m, at, delta, ws);
      assert EntryShifts(entries, width, i - 1, at, ws) <==>
        ShiftEntry(FromBE(entries[width * (i - 1)..width * i]), width, at, ws).Some?;
    }
  }

  ghost predicate EntryShifts(entries: seq<Byte>, width: nat, e: nat, at: nat, ws: seq<Widening>) {
    width * e + width <= |entries| && ShiftEntry(FromBE(entries[width * e..width * e + width]), width, at, ws).Some?
  }

  lemma SaioExactly(c: Node, m: Node, at: nat, delta: nat, ws: seq<Widening>)
    requires c.head <= |c.all| && Counts(ws, m, at, delta)
    ensures EditSaio(c, c.all, at, ws).Some? <==> SaioMoves(c, m, at, delta)
  {
    hide FromBE, BE, Put, HasBit, Counts, ShiftEntries, EntriesStay, SaioLayout, EntryShifts, SaioMoves;
    var b := Payload(c);
    SaioMovesIs(c, m, at, delta);
    if SaioLayout(b).Some? {
      var (start, width, count) := SaioLayout(b).value;
      SaioFits(b);
      assert c.all[c.head + start..] == b[start..];
      EntriesExactly(b[start..], width, count, m, at, delta, ws);
      assert EditSaio(c, c.all, at, ws).Some? <==> ShiftEntries(b[start..], width, count, at, ws).Some?;
      if width == 4 {
        ShortEntries(b[start..], count, m, at, delta, ws);
      } else {
        LongEntries(b[start..], count, at, ws);
      }
    }
  }

  lemma SaioMovesIs(c: Node, m: Node, at: nat, delta: nat)
    ensures SaioMoves(c, m, at, delta) <==>
      SaioLayout(Payload(c)).Some? &&
      var (start, width, count) := SaioLayout(Payload(c)).value;
      start <= |Payload(c)| && (width == 4 ==> EntriesStay(Payload(c)[start..], count, m, at, delta))
  {
    hide FromBE, HasBit, EntriesStay, SaioLayout;
    LayoutExactly(Payload(c));
  }

  lemma ShortEntry(entries: seq<Byte>, e: nat, m: Node, at: nat, delta: nat, ws: seq<Widening>)
    requires 4 * e + 4 <= |entries| && Counts(ws, m, at, delta)
    ensures EntryShifts(entries, 4, e, at, ws) <==> EntryStays(entries, e, m, at, delta)
  {
    hide FromBE, Counts, ShiftEntry, WidenedBefore;
    ShiftExactly(FromBE(entries[4 * e..4 * e + 4]), 4, m, at, delta, ws);
  }

  lemma ShortEntries(entries: seq<Byte>, count: nat, m: Node, at: nat, delta: nat, ws: seq<Widening>)
    requires 4 * count <= |entries| && Counts(ws, m, at, delta)
    ensures (forall e: nat | e < count :: EntryShifts(entries, 4, e, at, ws)) <==> EntriesStay(entries, count, m, at, delta)
  {
    hide Counts, EntryShifts, EntryStays;
    forall e: nat | e < count
      ensures EntryShifts(entries, 4, e, at, ws) <==> EntryStays(entries, e, m, at, delta)
    {
      ShortEntry(entries, e, m, at, delta, ws);
    }
  }

  lemma LongEntries(entries: seq<Byte>, count: nat, at: nat, ws: seq<Widening>)
    requires 8 * count <= |entries|
    ensures forall e: nat | e < count :: EntryShifts(entries, 8, e, at, ws)
  {
    hide FromBE, CountBefore;
  }

  lemma LayoutExactly(b: seq<Byte>)
    ensures SaioLayout(b).Some? <==>
      |b| >= 8 &&
      var start := if HasBit(FromBE(b[1..4]), 0) then 16 else 8;
      start <= |b| && (if b[0] == 0 then 4 else 8) * FromBE(b[start - 4..start]) <= |b| - start
    ensures SaioLayout(b).Some? ==>
      var start := if HasBit(FromBE(b[1..4]), 0) then 16 else 8;
      SaioLayout(b).value == (start, if b[0] == 0 then 4 else 8, FromBE(b[start - 4..start]))
  {
    hide FromBE, HasBit;
  }

  lemma ShiftExactly(entry: nat, width: nat, m: Node, at: nat, delta: nat, ws: seq<Widening>)
    requires Counts(ws, m, at, delta)
    ensures ShiftEntry(entry, width, at, ws).Some? <==>
      (width == 4 ==> (entry + 4 * WidenedBefore(m, |m.kids|, at, delta, (at + entry) % TwoTo64)) % TwoTo64 <= MaxU32)
  {
    hide CountBefore, WidenedBefore;
    assert CountBefore(ws, (at + entry) % TwoTo64) == WidenedBefore(m, |m.kids|, at, delta, (at + entry) % TwoTo64);
  }

  // ---- one traf

  /** What a widening fragment asks of a child of a traf. */
  ghost predicate KidMoves(c: Node, m: Node, at: nat, delta: nat) {
    (c.name == "trun" ==> TrunMoves(c, m, at, delta)) && (c.name == "saio" ==> SaioMoves(c, m, at, delta))
  }

  lemma KidExactly(t: Node, k: nat, m: Node, at: nat, delta: nat, ws: seq<Widening>)
    requires k < |t.kids| && (forall c | c in t.kids :: c.head <= |c.all|) && (ws != [] ==> Counts(ws, m, at, delta))
    ensures KidBytes(t, k, at, delta, ws).Some? <==> ws == [] || KidMoves(t.kids[k], m, at, delta)
  {
    hide EditTrun, EditSaio, EditTraf, TrunMoves, SaioMoves, Counts;
    var c := t.kids[k];
    if ws != [] {
      TrunExactly(c, m, at, delta, ws);
      SaioExactly(c, m, at, delta, ws);
    }
  }

  lemma {:induction false} KidsExactly(t: Node, n: nat, m: Node, at: nat, delta: nat, ws: seq<Widening>)
    requires n <= |t.kids| && (forall c | c in t.kids :: c.head <= |c.all|) && (ws != [] ==> Counts(ws, m, at, delta))
    ensures KidsBytes(t, n, at, delta, ws).Some? <==>
      ws == [] || forall k | 0 <= k < n :: KidMoves(t.kids[k], m, at, delta)
    decreases n
  {
    hide KidBytes, KidMoves, Flat, Counts;
    if n > 0 {
      KidsExactly(t, n - 1, m, at, delta, ws);
      KidExactly(t, n - 1, m, at, delta, ws);
    }
  }

  lemma RelativeExactly(m: Node, t: Node)
    requires forall c | c in t.kids :: c.head <= |c.all|
    ensures MoofRelative(t, CountTrafs(m.kids)) <==> FromMoof(m, t)
  {
    hide FromBE, HasBit;
    var k := IndexOf(t.kids, "tfhd");
    forall j: nat
      ensures IsFirst(t.kids, "tfhd", j) <==> j == k && k < |t.kids|
    {
      FirstIs(t.kids, "tfhd", j);
    }
    FewTrafs(m.kids);
    if k < |t.kids| {
      assert Payload(t.kids[k]) == t.kids[k].all[t.kids[k].head..];
    }
  }

  lemma {:induction false} FewTrafs(kids: seq<Node>)
    ensures CountTrafs(kids) == 0 <==> forall i | 0 <= i < |kids| :: kids[i].name != "traf"
    ensures CountTrafs(kids) <= 1 <==> forall i, j | 0 <= i < j < |kids| :: !(kids[i].name == "traf" && kids[j].name == "traf")
  {
    if kids != [] {
      var n := |kids| - 1;
      var init := kids[..n];
      FewTrafs(init);
      assert forall i | 0 <= i < n :: init[i] == kids[i];
      if CountTrafs(kids) == 0 {
        assert forall i | 0 <= i < |kids| :: i < n ==> kids[i] == init[i];
      }
      if CountTrafs(kids) > 1 {
        if kids[n].name == "traf" {
          var i :| 0 <= i < n && init[i].name == "traf";
          assert kids[i].name == "traf" && kids[n].name == "traf";
        } else {
          var i, j :| 0 <= i < j < n && init[i].name == "traf" && init[j].name == "traf";
          assert kids[i].name == "traf" && kids[j].name == "traf";
        }
      }
    }
  }

  /** What a widening fragment asks of a traf. */
  ghost predicate TrafMoves(t: Node, m: Node, at: nat, delta: nat) {
    t.head == 8 && FromMoof(m, t) && forall c | c in t.kids :: KidMoves(c, m, at, delta)
  }

  lemma TrafExactly(t: Node, trafAt: nat, m: Node, at: nat, delta: nat, ws: seq<Widening>)
    requires Holds(t) && (ws != [] ==> Counts(ws, m, at, delta))
    ensures TrafBytes(t, trafAt, CountTrafs(m.kids), at, delta, ws).Some? <==> ws == [] || TrafMoves(t, m, at, delta)
  {
    hide KidsBytes, KidMoves, Flat, Counts, FromMoof, MoofRelative;
    KidsExactly(t, |t.kids|, m, at, delta, ws);
    RelativeExactly(m, t);
    if forall k | 0 <= k < |t.kids| :: KidMoves(t.kids[k], m, at, delta) {
      forall c | c in t.kids
        ensures KidMoves(c, m, at, delta)
      {
        var k :| 0 <= k < |t.kids| && t.kids[k] == c;
      }
    }
  }

  // ---- fragments

  lemma {:induction false} MoofKidsExactly(m: Node, n: nat, at: nat, delta: nat, ws: seq<Widening>)
    requires n <= |m.kids| && Fragment(m) && (ws != [] ==> Counts(ws, m, at, delta))
    ensures MoofKids(m, n, at, delta, ws).Some? <==>
      ws == [] || forall i | 0 <= i < n && m.kids[i].name == "traf" :: TrafMoves(m.kids[i], m, at, delta)
    decreases n
  {
    hide TrafBytes, TrafMoves, Flat, Counts, Holds, Headed, KidAt;
    if n > 0 {
      MoofKidsExactly(m, n - 1, at, delta, ws);
      if m.kids[n - 1].name == "traf" {
        TrafExactly(m.kids[n - 1], at + KidAt(m, n - 1), m, at, delta, ws);
      }
    }
  }

  lemma MoofExactly(m: Node, at: nat, delta: nat)
    requires Fragment(m)
    ensures MoofBytes(m, at, delta).Some? <==> FragmentMoves(m, at, delta)
  {
    hide EditTraf, MoofKids, Widenings, TrafMoves, CountBefore, WidenedBefore, Flat, Holds, FragmentMoves;
    WideningsExactly(m, |m.kids|, at, delta);
    ByIndex(m, delta);
    MovesByEdit(m, at, delta);
    if Widenings(m, |m.kids|, at, delta).Some? {
      var ws := Widenings(m, |m.kids|, at, delta).value;
      assert Counts(ws, m, at, delta);
      MoofKidsExactly(m, |m.kids|, at, delta, ws);
      AllTrafsMove(m, at, delta);
    }
  }

  /** The condition on a fragment, by what the edit of each traf comes to. */
  lemma MovesByEdit(m: Node, at: nat, delta: nat)
    requires Headed(m.kids)
    ensures FragmentMoves(m, at, delta) <==>
      (forall t | t in m.kids && t.name == "traf" :: !EditTraf(t, delta).Refuse?) &&
      ((exists t | t in m.kids && t.name == "traf" :: EditTraf(t, delta).Widen?) ==>
         m.head == 8 && forall t | t in m.kids && t.name == "traf" :: TrafMoves(t, m, at, delta))
  {
    hide EditTraf, TrafMoves, TrafWidens, TrafTimeMoves, FromMoof, TrunMoves, SaioMoves;
    forall t | t in m.kids && t.name == "traf"
      ensures !EditTraf(t, delta).Refuse? <==> TrafTimeMoves(t, delta)
      ensures EditTraf(t, delta).Widen? <==> TrafWidens(t, delta) && !EditTraf(t, delta).Refuse?
      ensures TrafMoves(t, m, at, delta) <==>
        t.head == 8 && FromMoof(m, t) &&
        forall c | c in t.kids ::
          (c.name == "trun" ==> TrunMoves(c, m, at, delta)) && (c.name == "saio" ==> SaioMoves(c, m, at, delta))
    {
      TimeExactly(t, delta);
      TrafMovesIs(t, m, at, delta);
    }
  }

  lemma TrafMovesIs(t: Node, m: Node, at: nat, delta: nat)
    ensures TrafMoves(t, m, at, delta) <==>
      t.head == 8 && FromMoof(m, t) &&
      forall c | c in t.kids ::
        (c.name == "trun" ==> TrunMoves(c, m, at, delta)) && (c.name == "saio" ==> SaioMoves(c, m, at, delta))
  {
    hide TrunMoves, SaioMoves, FromMoof;
  }

  lemma AllTrafsMove(m: Node, at: nat, delta: nat)
    ensures (forall i | 0 <= i < |m.kids| && m.kids[i].name == "traf" :: TrafMoves(m.kids[i], m, at, delta)) <==>
            (forall t | t in m.kids && t.name == "traf" :: TrafMoves(t, m, at, delta))
  {
    hide TrafMoves;
    if forall i | 0 <= i < |m.kids| && m.kids[i].name == "traf" :: TrafMoves(m.kids[i], m, at, delta) {
      forall t | t in m.kids && t.name == "traf"
        ensures TrafMoves(t, m, at, delta)
      {
        var i :| 0 <= i < |m.kids| && m.kids[i] == t;
      }
    }
  }

  lemma ByIndex(m: Node, delta: nat)
    requires Headed(m.kids)
    ensures (forall i | 0 <= i < |m.kids| && m.kids[i].name == "traf" :: !EditTraf(m.kids[i], delta).Refuse?) <==>
            (forall t | t in m.kids && t.name == "traf" :: !EditTraf(t, delta).Refuse?)
    ensures (exists i | 0 <= i < |m.kids| && m.kids[i].name == "traf" :: EditTraf(m.kids[i], delta).Widen?) <==>
            (exists t | t in m.kids && t.name == "traf" :: EditTraf(t, delta).Widen?)
  {
    hide EditTraf;
    if forall i | 0 <= i < |m.kids| && m.kids[i].name == "traf" :: !EditTraf(m.kids[i], delta).Refuse? {
      forall t | t in m.kids && t.name == "traf"
        ensures !EditTraf(t, delta).Refuse?
      {
        var i :| 0 <= i < |m.kids| && m.kids[i] == t;
      }
    }
    if t :| t in m.kids && t.name == "traf" && EditTraf(t, delta).Widen? {
      var i :| 0 <= i < |m.kids| && m.kids[i] == t;
    }
  }

  lemma {:induction false} TopExactly(nodes: seq<Node>, n: nat, delta: nat)
    requires n <= |nodes| && Fragments(nodes)
    ensures TopBytes(nodes, n, delta).Some? <==>
      forall i | 0 <= i < n && nodes[i].name == "moof" :: FragmentMoves(nodes[i], |Flat(nodes[..i])|, delta)
    decreases n
  {
    hide MoofBytes, FragmentMoves, Flat, Fragment;
    if n > 0 {
      TopExactly(nodes, n - 1, delta);
      if nodes[n - 1].name == "moof" {
        MoofExactly(nodes[n - 1], |Flat(nodes[..n - 1])|, delta);
      }
    }
  }

  /** A payload is rebased if and only if it parses and its boxes can be raised. */
  lemma RebasesExactly(payload: seq<Byte>, delta: nat)
    ensures Rebase(payload, delta).Some? <==> Parse(payload).Some? && Rebasable(Parse(payload).value, delta)
  {
    hide Parse, TopBytes, FragmentMoves, Flat, Grow, Spaced;
    if Parse(payload).Some? {
      var nodes := Parse(payload).value;
      ParsedBuilt(payload);
      TopExactly(nodes, |nodes|, delta);
      SomeExactly(nodes);
    }
  }

  lemma SomeExactly(nodes: seq<Node>)
    ensures SomeTraf(nodes) <==>
      exists i, j :: 0 <= i < |nodes| && 0 <= j < |nodes[i].kids| && nodes[i].name == "moof" && nodes[i].kids[j].name == "traf"
  {
    if SomeTraf(nodes) {
      var m :| m in nodes && m.name == "moof" && exists t | t in m.kids :: t.name == "traf";
      var i :| 0 <= i < |nodes| && nodes[i] == m;
      var t :| t in m.kids && t.name == "traf";
      var j :| 0 <= j < |m.kids| && m.kids[j] == t;
      assert nodes[i].kids[j].name == "traf";
    }
  }
}
