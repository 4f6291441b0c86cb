/**
 * How a track run is written down (sections 8.8.7 and 8.8.8 of ISO/IEC 14496-12):
 * the fields its flags announce, in order, and the defaults for those they do not.
 */
module RunFormat {
  import opened Bytes
  import F = FragmentReader

  /** A sample of a run as 32-bit fields. */
  datatype Entry = Entry(duration: nat, size: nat, flags: nat, shift: nat)

  /** An optional 32-bit field. */
  function Field(present: bool, v: nat): (r: seq<Byte>)
    ensures |r| == if present then 4 else 0
  {
    if present then BE(4, v) else []
  }

  function EntryText(flags: nat, e: Entry): seq<Byte> {
    Field(HasBit(flags, 8), e.duration) + Field(HasBit(flags, 9), e.size) + Field(HasBit(flags, 10), e.flags) +
    Field(HasBit(flags, 11), e.shift)
  }

  function EntriesText(flags: nat, es: seq<Entry>): seq<Byte> {
    if es == [] then [] else EntriesText(flags, es[..|es| - 1]) + EntryText(flags, es[|es| - 1])
  }

  /** The fields ahead of the entries. */
  function HeadText(version: Byte, flags: nat, count: nat, offset: nat, first: nat): seq<Byte> {
    [version] + BE(3, flags) + BE(4, count) + Field(HasBit(flags, 0), offset) + Field(HasBit(flags, 2), first)
  }

  /** The payload of a trun; `offset` and `first` matter only where the flags announce them. */
  function RunText(version: Byte, flags: nat, es: seq<Entry>, offset: nat, first: nat): seq<Byte> {
    HeadText(version, flags, |es|, offset, first) + EntriesText(flags, es)
  }

  /** A decode time in either width. */
  predicate IsTfdt(b: seq<Byte>, time: nat) {
    (time <= MaxU32 && b == [0, 0, 0, 0] + BE(4, time)) || (time <= MaxU64 && b == [1, 0, 0, 0] + BE(8, time))
  }

  /** A field that is written fits 32 bits; one that is not has its default. */
  predicate FieldSettled(present: bool, v: nat, default_: nat) {
    if present then v <= MaxU32 else v == default_
  }

  /** The flags of sample `i` when its entry does not state them. */
  function OwnFlags(flags: nat, i: nat, first: nat, default_: nat): nat {
    if i == 0 && HasBit(flags, 2) then first else default_
  }

  predicate EntrySettled(flags: nat, e: Entry, own: nat, d: F.Defaults) {
    FieldSettled(HasBit(flags, 8), e.duration, d.duration) && FieldSettled(HasBit(flags, 9), e.size, d.size) &&
    FieldSettled(HasBit(flags, 10), e.flags, own) && FieldSettled(HasBit(flags, 11), e.shift, 0)
  }

  predicate EntriesSettled(flags: nat, es: seq<Entry>, first: nat, d: F.Defaults) {
    (HasBit(flags, 2) ==> first <= MaxU32) &&
    forall i | 0 <= i < |es| :: EntrySettled(flags, es[i], OwnFlags(flags, i, first, d.flags), d)
  }

  // ---- flags

  lemma HalfBit(v: nat, k: nat)
    ensures HasBit(v, k + 1) <==> HasBit(v / 2, k)
  {
    var p := Pow2(k);
    var q, r := v / (2 * p), v % (2 * p);
    assert v == 2 * p * q + r;
    assert 2 * p * q == 2 * (p * q);
    DivModUnique(v / 2, p, q, r / 2);
  }

  lemma LowBit(v: nat)
    ensures HasBit(v, 0) <==> v % 2 == 1
  {
  }

  /** What `flags & ~mask == 0` says of the bits. */
  lemma {:induction false} BitsWithin(v: nat, mask: nat)
    ensures OnlyBits(v, mask) <==> forall k: nat | HasBit(v, k) :: HasBit(mask, k)
  {
    hide HasBit;
    if v == 0 {
      forall k: nat
        ensures !HasBit(0, k)
      {
        NoBits(k);
      }
    } else {
      BitsWithin(v / 2, mask / 2);
      LowBit(v);
      LowBit(mask);
      forall k: nat
        ensures HasBit(v, k + 1) <==> HasBit(v / 2, k)
        ensures HasBit(mask, k + 1) <==> HasBit(mask / 2, k)
      {
        HalfBit(v, k);
        HalfBit(mask, k);
      }
      if forall k: nat | HasBit(v, k) :: HasBit(mask, k) {
        forall k: nat | HasBit(v / 2, k)
          ensures HasBit(mask / 2, k)
        {
          assert HasBit(v, k + 1);
        }
      }
      if OnlyBits(v, mask) {
        forall k: nat | HasBit(v, k)
          ensures HasBit(mask, k)
        {
          if k > 0 {
            assert HasBit(v / 2, k - 1);
          }
        }
      }
    }
  }

  lemma NoBits(k: nat)
    ensures !HasBit(0, k)
  {
  }

  /** The bits of a mask below 2^24, listed. */
  lemma MaskBitsAre(mask: nat, bits: set<nat>)
    requires mask < Pow256(3) && forall k: nat | k < 24 :: HasBit(mask, k) <==> k in bits
    requires forall k | k in bits :: k < 24
    ensures forall k: nat :: HasBit(mask, k) <==> k in bits
  {
    forall k: nat | k >= 24
      ensures !HasBit(mask, k)
    {
      HighBit(mask, k);
    }
  }

  lemma HighBit(v: nat, k: nat)
    requires v < Pow256(3) && k >= 24
    ensures !HasBit(v, k)
  {
    PowGrows(24, k);
    PowThree();
    assert v / Pow2(k) == 0;
  }

  lemma PowThree()
    ensures Pow2(24) == Pow256(3)
  {
    Pow256Values();
    assert Pow2(8) == 0x100;
    assert Pow2(12) == 16 * Pow2(8) && Pow2(16) == 16 * Pow2(12);
    assert Pow2(20) == 16 * Pow2(16) && Pow2(24) == 16 * Pow2(20);
  }

  lemma {:induction false} PowGrows(a: nat, b: nat)
    requires a <= b
    ensures Pow2(a) <= Pow2(b)
    decreases b - a
  {
    if a < b {
      PowGrows(a, b - 1);
    }
  }

  ghost predicate OnlyThese(flags: nat, bits: set<nat>) {
    forall k: nat | HasBit(flags, k) :: k in bits
  }

  lemma MaskAllows(flags: nat, mask: nat, bits: set<nat>)
    requires mask < Pow256(3) && (forall k | k in bits :: k < 24)
    requires forall k: nat | k < 24 :: HasBit(mask, k) <==> k in bits
    ensures OnlyBits(flags, mask) <==> OnlyThese(flags, bits)
  {
    hide HasBit, OnlyBits;
    BitsWithin(flags, mask);
    MaskBitsAre(mask, bits);
  }

  /** The flags of a run. */
  lemma RunMask(flags: nat)
    ensures OnlyBits(flags, 0x000F05) <==> OnlyThese(flags, {0, 2, 8, 9, 10, 11})
  {
    hide OnlyBits;
    Powers24();
    Pow256Values();
    MaskAllows(flags, 0x000F05, {0, 2, 8, 9, 10, 11});
  }

  lemma Powers24()
    ensures Pow2(0) == 1 && Pow2(1) == 2 && Pow2(2) == 4 && Pow2(3) == 8 && Pow2(4) == 16 && Pow2(5) == 32
    ensures Pow2(6) == 64 && Pow2(7) == 0x80 && Pow2(8) == 0x100 && Pow2(9) == 0x200 && Pow2(10) == 0x400
    ensures Pow2(11) == 0x800 && Pow2(12) == 0x1000 && Pow2(13) == 0x2000 && Pow2(14) == 0x4000 && Pow2(15) == 0x8000
    ensures Pow2(16) == 0x1_0000 && Pow2(17) == 0x2_0000 && Pow2(18) == 0x4_0000 && Pow2(19) == 0x8_0000
    ensures Pow2(20) == 0x10_0000 && Pow2(21) == 0x20_0000 && Pow2(22) == 0x40_0000 && Pow2(23) == 0x80_0000
  {
    assert Pow2(4) == 16 && Pow2(8) == 0x100;
    assert Pow2(12) == 0x1000;
    assert Pow2(16) == 0x1_0000;
    assert Pow2(20) == 0x10_0000;
  }

  /** These bytes stand at this place. */
  predicate Stands(b: seq<Byte>, pos: nat, s: seq<Byte>) {
    pos + |s| <= |b| && b[pos..pos + |s|] == s
  }

  lemma StandsNothing(b: seq<Byte>, p: nat)
    requires p <= |b|
    ensures Stands(b, p, [])
  {
  }

  lemma LengthBE(n: nat, v: nat)
    ensures |BE(n, v)| == n
  {
  }

  /** All the bytes there are. */
  lemma StandsWhole(b: seq<Byte>, s: seq<Byte>)
    ensures Stands(b, 0, s) && |s| == |b| <==> b == s
  {
    assert |s| == |b| ==> b[0..|s|] == b;
  }

  lemma Fits(b: seq<Byte>, pos: nat, s: seq<Byte>)
    ensures Stands(b, pos, s) ==> pos + |s| <= |b|
  {
  }

  lemma SameText(present: bool, v: nat, w: nat)
    requires present ==> v == w
    ensures Field(present, v) == Field(present, w)
  {
  }

  lemma FirstFits(flags: nat, es: seq<Entry>, first: nat, d: F.Defaults)
    requires EntriesSettled(flags, es, first, d)
    ensures HasBit(flags, 2) ==> first <= MaxU32
  {
  }

  lemma StandsConcat(b: seq<Byte>, pos: nat, s: seq<Byte>, t: seq<Byte>)
    ensures Stands(b, pos, s + t) <==> Stands(b, pos, s) && Stands(b, pos + |s|, t)
  {
    if pos + |s| + |t| <= |b| {
      assert b[pos..pos + |s + t|] == b[pos..pos + |s|] + b[pos + |s|..pos + |s| + |t|];
      if Stands(b, pos, s + t) {
        assert s == (s + t)[..|s|] && t == (s + t)[|s|..];
      }
    }
  }

  lemma StandsWord(b: seq<Byte>, pos: nat, n: nat, v: nat)
    requires v < Pow256(n)
    ensures Stands(b, pos, BE(n, v)) <==> pos + n <= |b| && FromBE(b[pos..pos + n]) == v
  {
    hide BE, FromBE;
    ReadBackBE(n, v);
    if pos + n <= |b| {
      RewriteBE(b[pos..pos + n]);
    }
  }

  /** Reading an optional field finds what is written. */
  lemma TakeExactly(b: seq<Byte>, pos: nat, present: bool, default_: nat, v: nat, next: nat)
    requires pos <= |b|
    ensures F.Take(b, pos, present, default_) == Some((v, next)) <==>
      Stands(b, pos, Field(present, v)) && next == pos + |Field(present, v)| && FieldSettled(present, v, default_)
  {
    hide BE, FromBE;
    Pow256Values();
    if present {
      if v <= MaxU32 {
        StandsWord(b, pos, 4, v);
      }
      if pos + 4 <= |b| {
        FromBEBound(b[pos..pos + 4]);
      }
    } else {
      assert b[pos..pos + 0] == [];
    }
  }

  /** Reading a field moves on by its width, whatever it reads. */
  lemma Taken(b: seq<Byte>, pos: nat, present: bool, default_: nat, v: nat)
    requires pos <= |b|
    ensures var r, f := F.Take(b, pos, present, default_), Field(present, v);
      (r.Some? ==> r.value.1 == pos + |f| <= |b|) && (Stands(b, pos, f) ==> pos + |f| <= |b|) &&
      (r.Some? && r.value.0 == v <==> Stands(b, pos, f) && FieldSettled(present, v, default_))
  {
    hide BE, FromBE;
    TakeExactly(b, pos, present, default_, v, pos + |Field(present, v)|);
  }

  /** The fields of an entry one behind the other. */
  lemma EntryStands(b: seq<Byte>, p: nat, flags: nat, e: Entry)
    ensures var f8, f9, f10, f11 := Field(HasBit(flags, 8), e.duration), Field(HasBit(flags, 9), e.size),
                                    Field(HasBit(flags, 10), e.flags), Field(HasBit(flags, 11), e.shift);
      var p9, p10, p11 := p + |f8|, p + |f8| + |f9|, p + |f8| + |f9| + |f10|;
      |EntryText(flags, e)| == |f8| + |f9| + |f10| + |f11| &&
      (Stands(b, p, EntryText(flags, e)) <==>
         Stands(b, p, f8) && Stands(b, p9, f9) && Stands(b, p10, f10) && Stands(b, p11, f11))
  {
    hide HasBit, Field, Stands;
    var f8, f9, f10, f11 := Field(HasBit(flags, 8), e.duration), Field(HasBit(flags, 9), e.size),
                            Field(HasBit(flags, 10), e.flags), Field(HasBit(flags, 11), e.shift);
    StandsConcat(b, p, f8 + f9 + f10, f11);
    StandsConcat(b, p, f8 + f9, f10);
    StandsConcat(b, p, f8, f9);
  }

  lemma EntriesLast(flags: nat, es: seq<Entry>, e: Entry)
    ensures EntriesText(flags, es + [e]) == EntriesText(flags, es) + EntryText(flags, e)
  {
    assert (es + [e])[..|es|] == es;
  }

  lemma SettledLast(flags: nat, es: seq<Entry>, e: Entry, first: nat, d: F.Defaults)
    ensures EntriesSettled(flags, es + [e], first, d) <==>
      EntriesSettled(flags, es, first, d) && EntrySettled(flags, e, OwnFlags(flags, |es|, first, d.flags), d)
  {
    hide EntrySettled, HasBit, OwnFlags;
    var all := es + [e];
    assert all[|es|] == e && forall i | 0 <= i < |es| :: all[i] == es[i];
  }

  lemma {:induction false} EntriesFirst(flags: nat, e: Entry, es: seq<Entry>)
    ensures EntriesText(flags, [e] + es) == EntryText(flags, e) + EntriesText(flags, es)
  {
    hide EntryText;
    var all := [e] + es;
    if es == [] {
      assert all == [e] && [e][..0] == [];
      assert [] + EntryText(flags, e) == EntryText(flags, e) + [];
    } else {
      var n := |es| - 1;
      EntriesFirst(flags, e, es[..n]);
      assert all[..n + 1] == [e] + es[..n] && all[n + 1] == es[n];
      assert EntryText(flags, e) + (EntriesText(flags, es[..n]) + EntryText(flags, es[n])) ==
        EntryText(flags, e) + EntriesText(flags, es[..n]) + EntryText(flags, es[n]);
    }
  }

  /** The parts of a run in place. */
  lemma RunStands(b: seq<Byte>, at: nat, version: Byte, flags: nat, es: seq<Entry>, offset: nat, first: nat)
    requires flags < Pow256(3) && |es| <= MaxU32
    ensures Stands(b, at, RunText(version, flags, es, offset, first)) <==>
      at + 8 <= |b| && b[at] == version && FromBE(b[at + 1..at + 4]) == flags && FromBE(b[at + 4..at + 8]) == |es| &&
      Stands(b, at + 8, Field(HasBit(flags, 0), offset)) &&
      var p := at + 8 + |Field(HasBit(flags, 0), offset)|;
      Stands(b, p, Field(HasBit(flags, 2), first)) &&
      Stands(b, p + |Field(HasBit(flags, 2), first)|, EntriesText(flags, es))
  {
    hide BE, FromBE, HasBit, EntriesText, Stands, Field;
    Pow256Values();
    var f0, f2 := Field(HasBit(flags, 0), offset), Field(HasBit(flags, 2), first);
    StandsConcat(b, at, HeadText(version, flags, |es|, offset, first), EntriesText(flags, es));
    StandsConcat(b, at, [version] + BE(3, flags) + BE(4, |es|) + f0, f2);
    StandsConcat(b, at, [version] + BE(3, flags) + BE(4, |es|), f0);
    StandsConcat(b, at, [version] + BE(3, flags), BE(4, |es|));
    StandsConcat(b, at, [version], BE(3, flags));
    StandsWord(b, at + 1, 3, flags);
    StandsWord(b, at + 4, 4, |es|);
    StandsOne(b, at, version);
    LongWithin(b, at);
  }

  lemma LongWithin(b: seq<Byte>, at: nat)
    ensures forall n: nat, v | Stands(b, at + 4, BE(n, v)) && n == 4 :: at + 8 <= |b|
  {
    hide BE;
  }

  lemma StandsOne(b: seq<Byte>, pos: nat, v: Byte)
    ensures Stands(b, pos, [v]) <==> pos < |b| && b[pos] == v
  {
    if pos < |b| {
      assert b[pos..pos + 1] == [b[pos]];
    }
  }
}
