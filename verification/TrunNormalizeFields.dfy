/**
 * What the normalizer reads and writes, in terms of the bytes of a run: a run reads
 * as the samples it states under its defaults and as nothing else, and the
 * normalized run states every duration, size and flag word of those samples.
 */
module TrunNormalizeFields {
  import opened Bytes
  import opened Mp4Boxes
  import opened BoxWriter
  import opened RunFormat
  import opened TrunNormalize
  import opened TrunNormalizeRead
  import opened TrunNormalizeTree
  import opened TrunNormalizeMoves
  import F = FragmentReader

  /** The payload at `at` states this run: its bytes, and the defaults where it is silent. */
  ghost predicate States(b: seq<Byte>, at: nat, d: F.Defaults, run: Run, offset: nat, first: nat) {
    run.flags < Pow256(3) && |run.samples| <= MaxU32 && (HasBit(run.flags, 0) ==> offset <= MaxU32) &&
    Stands(b, at, RunText(run.version, run.flags, run.samples, offset, first)) &&
    EntriesSettled(run.flags, run.samples, first, d) &&
    forall i | 0 <= i < |run.samples| :: run.samples[i].size != 0
  }

  lemma EntryExactly(b: seq<Byte>, pos: nat, flags: nat, own: nat, d: F.Defaults, e: Entry, next: nat)
    requires pos <= |b|
    ensures EntryAt(b, pos, flags, own, d) == Some((e, next)) <==>
      Stands(b, pos, EntryText(flags, e)) && next == pos + |EntryText(flags, e)| && EntrySettled(flags, e, own, d) &&
      e.size != 0
  {
    hide F.Take, HasBit, Field, Stands, FieldSettled, EntryText;
    var f8, f9, f10 := Field(HasBit(flags, 8), e.duration), Field(HasBit(flags, 9), e.size), Field(HasBit(flags, 10), e.flags);
    EntryStands(b, pos, flags, e);
    var p1, p2, p3 := pos + |f8|, pos + |f8| + |f9|, pos + |f8| + |f9| + |f10|;
    Taken(b, pos, HasBit(flags, 8), d.duration, e.duration);
    if p1 <= |b| {
      Taken(b, p1, HasBit(flags, 9), d.size, e.size);
      if p2 <= |b| {
        Taken(b, p2, HasBit(flags, 10), own, e.flags);
        if p3 <= |b| {
          Taken(b, p3, HasBit(flags, 11), 0, e.shift);
        }
      }
    }
  }

  /** The first `k` entries, with the flags the first sample has of its own. */
  lemma {:induction false} EntriesExactly(b: seq<Byte>, pos: nat, flags: nat, first: nat, d: F.Defaults, es: seq<Entry>,
                                          next: nat)
    requires pos <= |b| && (HasBit(flags, 2) ==> first <= MaxU32)
    ensures var own := if HasBit(flags, 2) then first else d.flags;
      EntriesTo(b, pos, flags, own, d, |es|) == Some((es, next)) <==>
        Stands(b, pos, EntriesText(flags, es)) && next == pos + |EntriesText(flags, es)| &&
        EntriesSettled(flags, es, first, d) && forall i | 0 <= i < |es| :: es[i].size != 0
    decreases |es|
  {
    hide EntryAt, HasBit, EntryText, EntriesText, Stands, EntrySettled, EntriesTo;
    var own, n := if HasBit(flags, 2) then first else d.flags, |es|;
    NoEntriesTo(b, pos, flags, own, d);
    if es != [] {
      var init, e := es[..n - 1], es[n - 1];
      assert es == init + [e];
      LastEntryTo(b, pos, flags, own, d, init, e, next);
      EntriesLast(flags, init, e);
      var p := pos + |EntriesText(flags, init)|;
      StandsConcat(b, pos, EntriesText(flags, init), EntryText(flags, e));
      EntriesExactly(b, pos, flags, first, d, init, p);
      var before := EntriesTo(b, pos, flags, own, d, n - 1);
      if before.Some? {
        EntriesExactly(b, pos, flags, first, d, init, before.value.1);
      }
      Fits(b, pos, EntriesText(flags, init));
      if p <= |b| {
        EntryExactly(b, p, flags, OwnFlags(flags, n - 1, first, d.flags), d, e, next);
      }
      SettledLast(flags, init, e, first, d);
    }
  }

  lemma NoEntriesTo(b: seq<Byte>, pos: nat, flags: nat, own: nat, d: F.Defaults)
    requires pos <= |b|
    ensures EntriesTo(b, pos, flags, own, d, 0) == Some(([], pos)) && EntriesText(flags, []) == [] && Stands(b, pos, [])
  {
  }

  lemma LastEntryTo(b: seq<Byte>, pos: nat, flags: nat, own: nat, d: F.Defaults, init: seq<Entry>, e: Entry, next: nat)
    ensures EntriesTo(b, pos, flags, own, d, |init| + 1) == Some((init + [e], next)) <==>
      exists p: nat ::
        EntriesTo(b, pos, flags, own, d, |init|) == Some((init, p)) &&
        EntryAt(b, p, flags, if |init| == 0 then own else d.flags, d) == Some((e, next))
  {
    hide EntryAt;
    var before := EntriesTo(b, pos, flags, own, d, |init|);
    if before.Some? {
      var p := before.value.1;
      var entry := EntryAt(b, p, flags, if |init| == 0 then own else d.flags, d);
      if entry.Some? {
        assert before.value.0 + [entry.value.0] == init + [e] <==> before.value.0 == init && entry.value.0 == e by {
          if before.value.0 + [entry.value.0] == init + [e] {
            assert before.value.0 == (init + [e])[..|init|] && entry.value.0 == (init + [e])[|init|];
          }
        }
      }
    }
  }

  /** A run reads as exactly the samples its bytes and its defaults state. */
  lemma RunExactly(b: seq<Byte>, at: nat, d: F.Defaults, run: Run)
    ensures RunAt(b, at, d) == Some(run) <==> exists offset: nat, first: nat :: States(b, at, d, run, offset, first)
  {
    hide HasBit, EntriesTo, EntriesText, Stands, EntriesSettled, F.Take, FromBE, RunText;
    if RunAt(b, at, d) == Some(run) {
      var flags := run.flags;
      FromBEBound(b[at + 1..at + 4]);
      FromBEBound(b[at + 4..at + 8]);
      Pow256Values();
      var offset, p := F.Take(b, at + 8, HasBit(flags, 0), 0).value.0, F.Take(b, at + 8, HasBit(flags, 0), 0).value.1;
      Taken(b, at + 8, HasBit(flags, 0), 0, offset);
      var first := F.Take(b, p, HasBit(flags, 2), d.flags).value.0;
      Taken(b, p, HasBit(flags, 2), d.flags, first);
      var q := p + |Field(HasBit(flags, 2), first)|;
      EntriesExactly(b, q, flags, first, d, run.samples, EntriesTo(b, q, flags, first, d, |run.samples|).value.1);
      RunStands(b, at, run.version, flags, run.samples, offset, first);
      assert States(b, at, d, run, offset, first);
    }
    if offset: nat, first: nat :| States(b, at, d, run, offset, first) {
      RunRead(b, at, d, run, offset, first);
    }
  }

  lemma RunRead(b: seq<Byte>, at: nat, d: F.Defaults, run: Run, offset: nat, first: nat)
    requires States(b, at, d, run, offset, first)
    ensures RunAt(b, at, d) == Some(run)
  {
    hide HasBit, EntriesTo, EntriesText, Stands, F.Take, FromBE, RunText, EntrySettled;
    var flags := run.flags;
    RunStands(b, at, run.version, flags, run.samples, offset, first);
    var zero := if HasBit(flags, 0) then offset else 0;
    SameText(HasBit(flags, 0), offset, zero);
    Taken(b, at + 8, HasBit(flags, 0), 0, zero);
    var p := at + 8 + |Field(HasBit(flags, 0), offset)|;
    Fits(b, at + 8, Field(HasBit(flags, 0), offset));
    var own := if HasBit(flags, 2) then first else d.flags;
    SameText(HasBit(flags, 2), first, own);
    Taken(b, p, HasBit(flags, 2), d.flags, own);
    Fits(b, p, Field(HasBit(flags, 2), first));
    var q := p + |Field(HasBit(flags, 2), first)|;
    EntriesExactly(b, q, flags, first, d, run.samples, q + |EntriesText(flags, run.samples)|);
  }

  /** Duration, size, flags and data offset are stated, first-sample flags are not, shifts are if they were. */
  predicate FullyStated(was: nat, now: nat) {
    HasBit(now, 0) && !HasBit(now, 2) && HasBit(now, 8) && HasBit(now, 9) && HasBit(now, 10) &&
    (HasBit(now, 11) <==> HasBit(was, 11))
  }

  /**
   * The samples that the moof's run states, its defaults filling in, are written out in
   * full in the normalized moof, behind the header of the trun at its old place.
   */
  lemma SamplesStated(b: seq<Byte>, mdatSize: nat, d: F.Defaults)
    returns (run: Run, offset: nat, first: nat, flags: nat)
    requires Compact(b) && Defaults32(d) && Normalize(b, mdatSize, d).Some?
    requires |Normalize(b, mdatSize, d).value| + 8 <= MaxU32
    ensures Locate(b).Some? &&
      var out, w := Normalize(b, mdatSize, d).value, Locate(b).value;
      States(b, w.TrunAt() + w.Trun().head, d, run, offset, first) && FullyStated(run.flags, flags) &&
      Stands(out, w.TrunAt() + 8, RunText(run.version, flags, run.samples, |out| + 8, 0))
  {
    hide Parse, Flat, RunAt, Locate, Normalize, States, HasBit, NormalFlags, Compact, Stands, RunText, Fields32, KidAt, FromBE;
    SamplesKept(b, mdatSize, d, d);
    PlanIs(b, mdatSize, d);
    var out, w := Normalize(b, mdatSize, d).value, Locate(b).value;
    run := PlanOf(b, d).value.run;
    flags := NormalFlags(run.flags);
    RunExactly(b, w.TrunAt() + w.Trun().head, d, run);
    offset, first :| States(b, w.TrunAt() + w.Trun().head, d, run, offset, first);
    RunIsRegular(b, w.TrunAt() + w.Trun().head, d);
    NormalBits(run.flags);
    RunExactly(out, w.TrunAt() + 8, d, Normal(run));
    var o: nat, f: nat :| States(out, w.TrunAt() + 8, d, Normal(run), o, f);
    StatedOffset(out, w.TrunAt() + 8, d, Normal(run), o, f);
  }

  lemma PlanIs(b: seq<Byte>, mdatSize: nat, d: F.Defaults)
    requires Normalize(b, mdatSize, d).Some?
    ensures Locate(b).Some? && PlanOf(b, d).Some? && PlanOf(b, d).value.place == Locate(b).value
    ensures var w := Locate(b).value;
      RunAt(b, w.TrunAt() + w.Trun().head, d) == Some(PlanOf(b, d).value.run)
  {
    hide Parse, Flat, RunAt, Locate, NewSize, KidAt;
  }

  /** The data offset of a run that has one and no first-sample flags. */
  lemma StatedOffset(b: seq<Byte>, at: nat, d: F.Defaults, run: Run, offset: nat, first: nat)
    requires States(b, at, d, run, offset, first) && HasBit(run.flags, 0) && !HasBit(run.flags, 2)
    ensures at + 12 <= |b| && FromBE(b[at + 8..at + 12]) == offset
    ensures Stands(b, at, RunText(run.version, run.flags, run.samples, offset, 0))
  {
    hide HasBit, BE, FromBE, EntriesText, EntriesSettled;
    Pow256Values();
    RunStands(b, at, run.version, run.flags, run.samples, offset, first);
    StandsWord(b, at + 8, 4, offset);
    SameText(HasBit(run.flags, 2), first, 0);
  }
}
