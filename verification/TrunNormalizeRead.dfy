/** Reading a normalized run gives the samples it was written from, whatever the defaults. */
module TrunNormalizeRead {
  import opened Bytes
  import opened Mp4Boxes
  import opened BoxWriter
  import opened TrunNormalize
  import opened RunFormat
  import F = FragmentReader

  // ---- flags

  lemma OrHalves(a: nat, b: nat)
    ensures BitOr(a, b) / 2 == BitOr(a / 2, b / 2)
    ensures BitOr(a, b) % 2 == 1 <==> a % 2 == 1 || b % 2 == 1
  {
  }

  lemma {:induction false} OrBits(a: nat, b: nat, k: nat)
    ensures HasBit(BitOr(a, b), k) <==> HasBit(a, k) || HasBit(b, k)
  {
    hide HasBit, BitOr;
    OrHalves(a, b);
    if k == 0 {
      LowBit(a);
      LowBit(b);
      LowBit(BitOr(a, b));
    } else {
      HalfBit(a, k - 1);
      HalfBit(b, k - 1);
      HalfBit(BitOr(a, b), k - 1);
      OrBits(a / 2, b / 2, k - 1);
    }
  }

  lemma {:induction false} OrAbsorbs(a: nat, b: nat)
    ensures BitOr(BitOr(a, b), b) == BitOr(a, b)
  {
    if a == 0 {
      OrSelf(b);
    } else if b != 0 {
      OrAbsorbs(a / 2, b / 2);
    }
  }

  lemma {:induction false} OrSelf(b: nat)
    ensures BitOr(b, b) == b
  {
    if b > 0 {
      OrSelf(b / 2);
    }
  }

  lemma {:induction false} OrBound(a: nat, b: nat, k: nat)
    requires a < Pow2(k) && b < Pow2(k)
    ensures BitOr(a, b) < Pow2(k)
  {
    if a != 0 && b != 0 {
      OrBound(a / 2, b / 2, k - 1);
    }
  }

  /** Bit 2 of `v` cleared. */
  function Cleared(v: nat): nat {
    if HasBit(v, 2) && v >= 4 then v - 4 else v
  }

  lemma ThirdBit(v: nat, k: nat)
    requires k >= 2
    ensures HasBit(v, k) <==> HasBit(v / 4, k - 2)
  {
    HalfBit(v, k - 1);
    HalfBit(v / 2, k - 2);
    assert v / 2 / 2 == v / 4;
  }

  lemma ClearedBits(v: nat)
    ensures !HasBit(Cleared(v), 2) && (HasBit(Cleared(v), 11) <==> HasBit(v, 11))
  {
    ThirdBit(v, 2);
    ThirdBit(v, 11);
    if HasBit(v, 2) {
      assert (v / 4) % 2 == 1;
      ThirdBit(v - 4, 2);
      ThirdBit(v - 4, 11);
      HalfBit(v / 4, 8);
      HalfBit((v - 4) / 4, 8);
      assert (v - 4) / 4 == v / 4 - 1 && (v / 4 - 1) / 2 == v / 4 / 2;
    }
  }

  lemma NormalBits(flags: nat)
    requires flags < Pow256(3)
    ensures var n := NormalFlags(flags);
      n < Pow256(3) && HasBit(n, 0) && !HasBit(n, 2) && HasBit(n, 8) && HasBit(n, 9) && HasBit(n, 10) &&
      (HasBit(n, 11) <==> HasBit(flags, 11)) && NormalFlags(n) == n
  {
    var c, n := Cleared(flags), NormalFlags(flags);
    ClearedBits(flags);
    OrBits(c, 0x701, 0);
    OrBits(c, 0x701, 2);
    OrBits(c, 0x701, 8);
    OrBits(c, 0x701, 9);
    OrBits(c, 0x701, 10);
    OrBits(c, 0x701, 11);
    MaskBits();
    OrAbsorbs(c, 0x701);
    assert Pow2(8) == 0x100 && Pow2(16) == 0x100 * Pow2(8) && Pow2(24) == 0x100 * Pow2(16) by {
      Powers();
    }
    OrBound(c, 0x701, 24);
  }

  lemma Powers()
    ensures Pow2(8) == 0x100 && Pow2(16) == 0x1_0000 && Pow2(24) == 0x100_0000
  {
    assert Pow2(12) == 16 * Pow2(8) == 0x1000;
    assert Pow2(16) == 16 * Pow2(12);
    assert Pow2(20) == 16 * Pow2(16);
    assert Pow2(24) == 16 * Pow2(20);
  }

  lemma MaskBits()
    ensures HasBit(0x701, 0) && !HasBit(0x701, 2) && HasBit(0x701, 8) && HasBit(0x701, 9) && HasBit(0x701, 10)
    ensures !HasBit(0x701, 11)
  {
    assert Pow2(8) == 0x100 && Pow2(9) == 0x200 && Pow2(10) == 0x400 && Pow2(11) == 0x800;
  }

  // ---- entries

  predicate Fields32(samples: seq<Entry>) {
    forall i | 0 <= i < |samples| ::
      samples[i].duration <= MaxU32 && 0 < samples[i].size <= MaxU32 && samples[i].flags <= MaxU32 &&
      samples[i].shift <= MaxU32
  }

  predicate Defaults32(d: F.Defaults) {
    d.duration <= MaxU32 && d.size <= MaxU32 && d.flags <= MaxU32
  }

  lemma TakenBound(b: seq<Byte>, pos: nat, present: bool, default_: nat)
    requires default_ <= MaxU32 && F.Take(b, pos, present, default_).Some?
    ensures F.Take(b, pos, present, default_).value.0 <= MaxU32
  {
    if present {
      FromBEBound(b[pos..pos + 4]);
      Pow256Values();
    }
  }

  lemma {:induction false} EntriesBound(b: seq<Byte>, pos: nat, flags: nat, first: nat, d: F.Defaults, k: nat)
    requires Defaults32(d) && first <= MaxU32 && EntriesTo(b, pos, flags, first, d, k).Some?
    ensures Fields32(EntriesTo(b, pos, flags, first, d, k).value.0)
  {
    hide F.Take, HasBit;
    if k > 0 {
      EntriesBound(b, pos, flags, first, d, k - 1);
      EntryBound(b, EntriesTo(b, pos, flags, first, d, k - 1).value.1, flags, if k == 1 then first else d.flags, d);
    }
  }

  lemma EntryBound(b: seq<Byte>, pos: nat, flags: nat, own: nat, d: F.Defaults)
    requires Defaults32(d) && own <= MaxU32 && EntryAt(b, pos, flags, own, d).Some?
    ensures Fields32([EntryAt(b, pos, flags, own, d).value.0])
  {
    hide F.Take, HasBit;
    TakenBound(b, pos, HasBit(flags, 8), d.duration);
    var p1 := F.Take(b, pos, HasBit(flags, 8), d.duration).value.1;
    TakenBound(b, p1, HasBit(flags, 9), d.size);
    var p2 := F.Take(b, p1, HasBit(flags, 9), d.size).value.1;
    TakenBound(b, p2, HasBit(flags, 10), own);
    TakenBound(b, F.Take(b, p2, HasBit(flags, 10), own).value.1, HasBit(flags, 11), 0);
  }

  lemma RunBound(b: seq<Byte>, at: nat, d: F.Defaults)
    requires Defaults32(d) && RunAt(b, at, d).Some?
    ensures var run := RunAt(b, at, d).value;
      Fields32(run.samples) && |run.samples| <= MaxU32 && run.flags < Pow256(3)
  {
    hide F.Take, HasBit, EntriesTo;
    var flags := FromBE(b[at + 1..at + 4]);
    FromBEBound(b[at + 1..at + 4]);
    FromBEBound(b[at + 4..at + 8]);
    Pow256Values();
    var offset := F.Take(b, at + 8, HasBit(flags, 0), 0).value;
    TakenBound(b, offset.1, HasBit(flags, 2), d.flags);
    var first := F.Take(b, offset.1, HasBit(flags, 2), d.flags).value;
    EntriesBound(b, first.1, flags, first.0, d, FromBE(b[at + 4..at + 8]));
  }

  /** What a written entry reads as. */
  lemma EntryBack(b: seq<Byte>, pos: nat, flags: nat, own: nat, d: F.Defaults, s: Entry)
    requires Fields32([s]) && HasBit(flags, 8) && HasBit(flags, 9) && HasBit(flags, 10)
    requires HasBit(flags, 11) || s.shift == 0
    requires var e := EntryBytes(s, HasBit(flags, 11)); pos + |e| <= |b| && b[pos..pos + |e|] == e
    ensures EntryAt(b, pos, flags, own, d) == Some((s, pos + |EntryBytes(s, HasBit(flags, 11))|))
  {
    hide HasBit, BE, FromBE;
    var e := EntryBytes(s, HasBit(flags, 11));
    assert [s][0] == s;
    Pow256Values();
    ReadBackBE(4, s.duration);
    ReadBackBE(4, s.size);
    ReadBackBE(4, s.flags);
    ReadBackBE(4, s.shift);
    assert e[..4] == BE(4, s.duration) && e[4..8] == BE(4, s.size) && e[8..12] == BE(4, s.flags);
    Part(b, pos, e, 0, 4);
    Part(b, pos, e, 4, 8);
    Part(b, pos, e, 8, 12);
    assert e[0..4] == e[..4];
    if HasBit(flags, 11) {
      assert e[12..16] == BE(4, s.shift);
      Part(b, pos, e, 12, 16);
    }
  }

  lemma Part(b: seq<Byte>, pos: nat, e: seq<Byte>, i: nat, j: nat)
    requires pos + |e| <= |b| && b[pos..pos + |e|] == e && i <= j <= |e|
    ensures b[pos + i..pos + j] == e[i..j]
  {
    assert forall k | i <= k < j :: b[pos + k] == b[pos..pos + |e|][k] == e[k];
  }

  lemma {:induction false} EntriesBack(b: seq<Byte>, pos: nat, flags: nat, first: nat, d: F.Defaults,
                                       samples: seq<Entry>)
    requires Fields32(samples) && HasBit(flags, 8) && HasBit(flags, 9) && HasBit(flags, 10)
    requires HasBit(flags, 11) || forall i | 0 <= i < |samples| :: samples[i].shift == 0
    requires var e := EntriesBytes(samples, HasBit(flags, 11)); pos + |e| <= |b| && b[pos..pos + |e|] == e
    ensures EntriesTo(b, pos, flags, first, d, |samples|) ==
      Some((samples, pos + |EntriesBytes(samples, HasBit(flags, 11))|))
  {
    hide HasBit, EntryAt, EntryBytes, EntriesTo, EntriesBytes;
    var shifted, n := HasBit(flags, 11), |samples|;
    if samples != [] {
      var s := samples[n - 1];
      var before, last := EntriesBytes(samples[..n - 1], shifted), EntryBytes(s, shifted);
      LastEntry(samples, shifted);
      Halves(b, pos, before, last);
      EntriesBack(b, pos, flags, first, d, samples[..n - 1]);
      EntryBack(b, pos + |before|, flags, if n == 1 then first else d.flags, d, s);
      NextEntry(b, pos, flags, first, d, samples[..n - 1], s, pos + |before|, pos + |before| + |last|);
      assert samples == samples[..n - 1] + [s];
    } else {
      NoEntries(b, pos, flags, first, d, shifted);
    }
  }

  lemma LastEntry(samples: seq<Entry>, shifted: bool)
    requires samples != []
    ensures EntriesBytes(samples, shifted) ==
      EntriesBytes(samples[..|samples| - 1], shifted) + EntryBytes(samples[|samples| - 1], shifted)
  {
  }

  lemma NoEntries(b: seq<Byte>, pos: nat, flags: nat, first: nat, d: F.Defaults, shifted: bool)
    ensures EntriesTo(b, pos, flags, first, d, 0) == Some(([], pos)) && EntriesBytes([], shifted) == []
  {
  }

  lemma NextEntry(b: seq<Byte>, pos: nat, flags: nat, first: nat, d: F.Defaults, before: seq<Entry>,
                  s: Entry, at: nat, next: nat)
    requires EntriesTo(b, pos, flags, first, d, |before|) == Some((before, at))
    requires EntryAt(b, at, flags, if |before| == 0 then first else d.flags, d) == Some((s, next))
    ensures EntriesTo(b, pos, flags, first, d, |before| + 1) == Some((before + [s], next))
  {
    hide EntryAt;
  }

  lemma Halves(b: seq<Byte>, pos: nat, x: seq<Byte>, y: seq<Byte>)
    requires pos + |x + y| <= |b| && b[pos..pos + |x + y|] == x + y
    ensures b[pos..pos + |x|] == x && b[pos + |x|..pos + |x| + |y|] == y
  {
    Part(b, pos, x + y, 0, |x|);
    Part(b, pos, x + y, |x|, |x + y|);
    assert (x + y)[0..|x|] == x && (x + y)[|x|..|x + y|] == y;
  }

  /** Samples without composition offsets in the run have none. */
  lemma {:induction false} NoShifts(b: seq<Byte>, pos: nat, flags: nat, first: nat, d: F.Defaults, k: nat)
    requires !HasBit(flags, 11) && EntriesTo(b, pos, flags, first, d, k).Some?
    ensures forall i | 0 <= i < k :: EntriesTo(b, pos, flags, first, d, k).value.0[i].shift == 0
  {
    hide HasBit;
    if k > 0 {
      NoShifts(b, pos, flags, first, d, k - 1);
    }
  }

  /** The run the normalized trun holds: the same samples, under the normalized flags. */
  function Normal(run: Run): Run {
    Run(run.version, NormalFlags(run.flags), run.samples)
  }

  predicate Regular(run: Run) {
    Fields32(run.samples) && |run.samples| <= MaxU32 && run.flags < Pow256(3) &&
    (HasBit(run.flags, 11) || forall i | 0 <= i < |run.samples| :: run.samples[i].shift == 0)
  }

  lemma RunIsRegular(b: seq<Byte>, at: nat, d: F.Defaults)
    requires Defaults32(d) && RunAt(b, at, d).Some?
    ensures Regular(RunAt(b, at, d).value)
  {
    hide F.Take, HasBit, EntriesTo, Fields32;
    RunBound(b, at, d);
    var flags := FromBE(b[at + 1..at + 4]);
    var offset := F.Take(b, at + 8, HasBit(flags, 0), 0).value;
    var first := F.Take(b, offset.1, HasBit(flags, 2), d.flags).value;
    if !HasBit(flags, 11) {
      NoShifts(b, first.1, flags, first.0, d, FromBE(b[at + 4..at + 8]));
    }
  }

  /**
   * A normalized trun in place reads back as the same samples, with no help from the
   * defaults, and its data offset is the one written.
   */
  lemma TrunBack(b: seq<Byte>, trunAt: nat, run: Run, dataOffset: nat, d: F.Defaults)
    requires Regular(run) && dataOffset <= MaxU32
    requires var t := NormalTrun(run, dataOffset); trunAt + |t| <= |b| && b[trunAt..trunAt + |t|] == t
    ensures RunAt(b, trunAt + 8, d) == Some(Normal(run))
    ensures trunAt + 20 <= |b| && FromBE(b[trunAt + 16..trunAt + 20]) == dataOffset
  {
    hide HasBit, BE, FromBE, NormalFlags, EntriesTo, EntriesBytes, Fields32;
    var flags := NormalFlags(run.flags);
    var entries := EntriesBytes(run.samples, HasBit(flags, 11));
    var t, at := NormalTrun(run, dataOffset), trunAt + 8;
    NormalBits(run.flags);
    TrunParts(run, dataOffset);
    Part(b, trunAt, t, 8, 9);
    Part(b, trunAt, t, 9, 12);
    Part(b, trunAt, t, 12, 16);
    Part(b, trunAt, t, 16, 20);
    Part(b, trunAt, t, 20, |t|);
    assert b[at] == b[at..at + 1][0];
    EntriesBack(b, at + 12, flags, d.flags, d, run.samples);
  }

  lemma TrunParts(run: Run, dataOffset: nat)
    requires Regular(run) && dataOffset <= MaxU32
    ensures var t := NormalTrun(run, dataOffset);
      |t| >= 20 && t[8..9] == [run.version] && FromBE(t[9..12]) == NormalFlags(run.flags) &&
      FromBE(t[12..16]) == |run.samples| && FromBE(t[16..20]) == dataOffset &&
      t[20..] == EntriesBytes(run.samples, HasBit(NormalFlags(run.flags), 11))
  {
    hide HasBit, BE, FromBE, NormalFlags, EntriesBytes, Fields32;
    var t, flags := NormalTrun(run, dataOffset), NormalFlags(run.flags);
    NormalBits(run.flags);
    Pow256Values();
    ReadBackBE(3, flags);
    ReadBackBE(4, |run.samples|);
    ReadBackBE(4, dataOffset);
    var entries := EntriesBytes(run.samples, HasBit(flags, 11));
    assert t[8..] == [run.version] + BE(3, flags) + (BE(4, |run.samples|) + BE(4, dataOffset) + entries);
    assert t[8..9] == [run.version];
    assert t[9..12] == BE(3, flags);
    assert t[12..16] == BE(4, |run.samples|);
    assert t[16..20] == BE(4, dataOffset);
  }
}
