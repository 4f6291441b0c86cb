/**
 * The variable-length integer of LOCMAF ("vi64") and of the draft-17 and later
 * transport: the leading one bits of the first byte count the bytes after it.
 * Three writers and one reader in the source implement it.
 */
module Vi64 {
  import opened Bytes

  /** The number of bytes of the shortest form; the limits are 2^7, 2^14, .. 2^56. */
  function Length(v: nat): (n: nat)
    ensures 1 <= n <= 9
  {
    if v < 0x80 then 1
    else if v < 0x4000 then 2
    else if v < 0x20_0000 then 3
    else if v < 0x1000_0000 then 4
    else if v < 0x8_0000_0000 then 5
    else if v < 0x400_0000_0000 then 6
    else if v < 0x2_0000_0000_0000 then 7
    else if v < 0x100_0000_0000_0000 then 8
    else 9
  }

  /** What `0xff << (9 - n)` leaves in one byte: n - 1 ones, then zeros. */
  function Prefix(n: nat): (p: Byte)
    requires 1 <= n <= 9
  {
    match n
    case 1 => 0
    case 2 => 0x80
    case 3 => 0xC0
    case 4 => 0xE0
    case 5 => 0xF0
    case 6 => 0xF8
    case 7 => 0xFC
    case 8 => 0xFE
    case _ => 0xFF
  }

  function LeadingOnes(b: Byte): (n: nat)
    ensures n <= 8
  {
    if b < 0x80 then 0
    else if b < 0xC0 then 1
    else if b < 0xE0 then 2
    else if b < 0xF0 then 3
    else if b < 0xF8 then 4
    else if b < 0xFC then 5
    else if b < 0xFE then 6
    else if b < 0xFF then 7
    else 8
  }

  lemma Pow2Values()
    ensures Pow2(0) == 1 && Pow2(1) == 2 && Pow2(2) == 4 && Pow2(3) == 8 && Pow2(4) == 16
    ensures Pow2(5) == 32 && Pow2(6) == 64 && Pow2(7) == 0x80 && Pow2(8) == 0x100
  {
    assert Pow2(8) == 0x100;
  }

  lemma {:induction false} Pow2Seven(a: nat)
    ensures Pow2(a + 7) == 0x80 * Pow2(a)
  {
    assert Pow2(a + 7) == 4 * Pow2(a + 5) == 16 * Pow2(a + 3) == 64 * Pow2(a + 1);
  }

  lemma Limits()
    ensures Pow2(7) == 0x80
    ensures Pow2(14) == 0x4000 && Pow2(21) == 0x20_0000 && Pow2(28) == 0x1000_0000
    ensures Pow2(35) == 0x8_0000_0000 && Pow2(42) == 0x400_0000_0000
    ensures Pow2(49) == 0x2_0000_0000_0000 && Pow2(56) == 0x100_0000_0000_0000
  {
    Pow2Seven(0);
    Pow2Seven(7);
    Pow2Seven(14);
    Pow2Seven(21);
    Pow2Seven(28);
    Pow2Seven(35);
    Pow2Seven(42);
    Pow2Seven(49);
  }

  lemma Pow256Table()
    ensures Pow256(0) == 1 && Pow256(1) == 0x100 && Pow256(2) == 0x1_0000
    ensures Pow256(3) == 0x100_0000 && Pow256(4) == 0x1_0000_0000
    ensures Pow256(5) == 0x100_0000_0000 && Pow256(6) == 0x1_0000_0000_0000
    ensures Pow256(7) == 0x100_0000_0000_0000 && Pow256(8) == TwoTo64
  {
    assert Pow256(4) == 0x1_0000_0000;
    assert Pow256(8) == TwoTo64;
  }

  /** What is left of `v` above its last n - 1 bytes fits beside the length prefix. */
  ghost predicate Fits(n: nat, v: nat)
  {
    1 <= n <= 9 && if n == 9 then Shr8(v, 8) == 0 else Shr8(v, n - 1) < Pow2(8 - n)
  }

  function First(n: nat, h: nat): (b: Byte)
    requires 1 <= n <= 9 && if n == 9 then h == 0 else h < Pow2(8 - n)
    ensures LeadingOnes(b) == n - 1
    ensures n < 9 ==> b % Pow2(8 - n) == h
  {
    Pow2Values();
    Prefix(n) + h
  }

  lemma LengthFits(v: nat)
    requires v < TwoTo64
    ensures Fits(Length(v), v)
  {
    var n := Length(v);
    if n == 9 {
      Pow256Table();
      ShrBound(v, 8, 1);
    } else {
      LimitSplits(v);
      ShrBound(v, n - 1, Pow2(8 - n));
    }
  }

  lemma LimitSplits(v: nat)
    requires Length(v) < 9
    ensures v < Pow2(8 - Length(v)) * Pow256(Length(v) - 1)
  {
    Pow2Values();
    Pow256Table();
  }

  /** `v` in `n` bytes: length prefix and high bits first, then big-endian bytes. */
  function EncodeAt(n: nat, v: nat): (s: seq<Byte>)
    requires Fits(n, v)
    ensures |s| == n
  {
    [First(n, Shr8(v, n - 1))] + BE(n - 1, v)
  }

  function Encode(v: nat): (s: seq<Byte>)
    requires v < TwoTo64
    ensures |s| == Length(v)
  {
    LengthFits(v);
    EncodeAt(Length(v), v)
  }

  /** The value and the number of bytes it took, or None when the bytes run out. */
  function Decode(s: seq<Byte>): (r: Option<(nat, nat)>)
    ensures r.Some? ==> 1 <= r.value.1 <= |s| && r.value.1 <= 9
  {
    if s == [] then None
    else
      var n := LeadingOnes(s[0]) + 1;
      if |s| < n then None
      else
        var high: nat := if n < 9 then s[0] % Pow2(8 - n) else 0;
        Some((Accumulate(high, s[1..n]), n))
  }

  lemma DecodeFits(s: seq<Byte>)
    requires Decode(s).Some?
    ensures Decode(s).value.0 < TwoTo64
  {
    var n := LeadingOnes(s[0]) + 1;
    if n < 9 {
      HeadRemainder(s[0], n);
      AccumulateFits(s[0] % Pow2(8 - n), s[1..n]);
    } else {
      AccumulateFits(0, s[1..n]);
    }
  }

  lemma HeadRemainder(b: Byte, length: nat)
    requires 1 <= length <= 8
    ensures b % Pow2(8 - length) < 0x80
  {
    Pow2Values();
  }

  lemma AccumulateFits(h: nat, s: seq<Byte>)
    requires (|s| <= 7 && h < 0x80) || (|s| <= 8 && h == 0)
    ensures Accumulate(h, s) < TwoTo64
  {
    if |s| <= 7 {
      AccumulateBound(h, s, 0x80);
    } else {
      AccumulateBound(h, s, 1);
    }
    Pow256Table();
  }

  lemma RoundTripAt(n: nat, v: nat, rest: seq<Byte>)
    requires Fits(n, v)
    ensures Decode(EncodeAt(n, v) + rest) == Some((v, n))
  {
    var s := EncodeAt(n, v) + rest;
    assert s[1..n] == BE(n - 1, v);
    HighAndLow(n - 1, v);
  }

  /** Decoding an encoding gives the value and stops at its last byte, whatever follows. */
  lemma RoundTrip(v: nat, rest: seq<Byte>)
    requires v < TwoTo64
    ensures Decode(Encode(v) + rest) == Some((v, Length(v)))
  {
    LengthFits(v);
    RoundTripAt(Length(v), v, rest);
  }

  /** The encoding is prefix-free and injective. */
  lemma Injective(v: nat, w: nat, r: seq<Byte>, t: seq<Byte>)
    requires v < TwoTo64 && w < TwoTo64 && Encode(v) + r == Encode(w) + t
    ensures v == w && r == t
  {
    RoundTrip(v, r);
    RoundTrip(w, t);
    assert r == (Encode(v) + r)[Length(v)..];
    assert t == (Encode(w) + t)[Length(w)..];
  }

  // ---- the writers

  lemma FirstIsOr(n: nat, h: nat)
    requires 1 <= n <= 9 && if n == 9 then h == 0 else h < Pow2(8 - n)
    ensures h % 256 == h
    ensures BitOr(h, 0xFF * Pow2(9 - n) % 256) == First(n, h) == BitOr(0xFF * Pow2(9 - n) % 256, h)
  {
    Pow2Values();
    if n < 9 {
      BitOrDisjoint(h, Prefix(n), 8 - n);
    }
    BitOrCommutes(h, Prefix(n));
  }

  /** The length loop all three writers share: `value >= (1 << 7 * n)` asks for another byte. */
  lemma LongerBy7(v: nat, n: nat)
    requires 1 <= n <= 8
    ensures v >= Pow2(7 * n) <==> Length(v) > n
  {
    Limits();
    assert n == 1 || n == 2 || n == 3 || n == 4 || n == 5 || n == 6 || n == 7 || n == 8;
  }

  /** Or-ing the prefix into the first of `n` big-endian bytes gives the encoding. */
  lemma PrefixedBytes(n: nat, v: nat)
    requires Fits(n, v)
    ensures BitOr(BE(n, v)[0], 0xFF * Pow2(9 - n) % 256) < 256
    ensures [BitOr(BE(n, v)[0], 0xFF * Pow2(9 - n) % 256)] + BE(n, v)[1..] == EncodeAt(n, v)
    ensures n == 1 ==> BE(n, v) == EncodeAt(n, v)
  {
    HeadBE(n, v);
    FirstIsOr(n, Shr8(v, n - 1));
    if n == 1 {
      Pow2Values();
    }
  }

  /** The length loop of `vi` and `locmaf_varint`. */
  method ShortestLength(value: nat) returns (n: nat)
    ensures n == Length(value)
  {
    n := 1;
    while n < 9 && value >= Pow2(7 * n)
      invariant 1 <= n <= Length(value)
    {
      LongerBy7(value, n);
      n := n + 1;
    }
    if n < 9 {
      LongerBy7(value, n);
    }
  }

  /** `vi`: appends the encoding of `v` to `b`. */
  method Append(b: seq<Byte>, v: nat) returns (out: seq<Byte>)
    requires v < TwoTo64
    ensures out == b + Encode(v)
  {
    hide Fits, EncodeAt, BitOr, Length;
    var n := ShortestLength(v);
    LengthFits(v);
    var start := |b|;
    out := b + seq(n, _ => 0);
    var value, i := v, n;
    while i > 0
      invariant 0 <= i <= n && value >= 0 && |out| == start + n && out[..start] == b
      invariant BE(i, value) + out[start + i..] == BE(n, v)
    {
      out := out[start + i - 1 := value % 256];
      value := value / 256;
      i := i - 1;
      assert out[start + i..] == [out[start + i]] + out[start + i + 1..];
    }
    assert out == b + BE(n, v);
    Marked(b, n, v);
    if n > 1 {
      out := out[start := BitOr(out[start], 0xFF * Pow2(9 - n) % 256)];
    }
  }

  /** The length prefix written over the first byte of the number. */
  lemma Marked(b: seq<Byte>, n: nat, v: nat)
    requires v < TwoTo64 && n == Length(v)
    ensures n > 1 ==> BitOr((b + BE(n, v))[|b|], 0xFF * Pow2(9 - n) % 256) < 256
    ensures var out := b + BE(n, v);
      b + Encode(v) == if n > 1 then out[|b| := BitOr(out[|b|], 0xFF * Pow2(9 - n) % 256)] else out
  {
    hide Fits, EncodeAt, BitOr, Length;
    LengthFits(v);
    PrefixedBytes(n, v);
  }

  /** `locmaf_varint`: the same number written into a buffer of its own. */
  method LocmafVarint(v: nat) returns (out: seq<Byte>)
    requires v < TwoTo64
    ensures out == Encode(v)
  {
    hide Fits, EncodeAt, BitOr, Length;
    var length := ShortestLength(v);
    LengthFits(v);
    out := seq(length, _ => 0);
    var value, i := v, length;
    while i > 0
      invariant 0 <= i <= length && value >= 0 && |out| == length
      invariant BE(i, value) + out[i..] == BE(length, v)
    {
      out := out[i - 1 := value % 256];
      value := value / 256;
      i := i - 1;
      assert out[i..] == [out[i]] + out[i + 1..];
    }
    PrefixedBytes(length, v);
    assert out == BE(length, v);
    if length > 1 {
      out := out[0 := BitOr(out[0], 0xFF * Pow2(9 - length) % 256)];
      assert out == [out[0]] + BE(length, v)[1..];
    }
  }

  datatype DraftVersion = Draft14 | Draft16 | Draft17 | Draft18OrLater | OtherDraft

  /** The two-bit length prefix of section 16 of RFC 9000, used by drafts 14 and 16. */
  function QuicSize(v: nat): (n: nat)
    ensures n == 1 || n == 2 || n == 4 || n == 8
  {
    if v < 0x40 then 1 else if v < 0x4000 then 2 else if v < 0x4000_0000 then 4 else 8
  }

  function QuicPrefix(n: nat): (p: Byte)
    requires n == 1 || n == 2 || n == 4 || n == 8
  {
    if n == 1 then 0 else if n == 2 then 0x40 else if n == 4 then 0x80 else 0xC0
  }

  /** The number of bytes a first byte announces. */
  function QuicBytes(b: Byte): (n: nat)
    ensures n == 1 || n == 2 || n == 4 || n == 8
  {
    if b < 0x40 then 1 else if b < 0x80 then 2 else if b < 0xC0 then 4 else 8
  }

  lemma QuicFirst(n: nat, h: nat)
    requires (n == 1 || n == 2 || n == 4 || n == 8) && h < 0x40
    ensures QuicPrefix(n) + h < 256 && QuicBytes(QuicPrefix(n) + h) == n && (QuicPrefix(n) + h) % 0x40 == h
  {
  }

  function DecodeQuic(s: seq<Byte>): (r: Option<(nat, nat)>)
  {
    if s == [] then None
    else
      var n := QuicBytes(s[0]);
      if |s| < n then None else Some((Accumulate(s[0] % 0x40, s[1..n]), n))
  }

  /** `s` is the wire form of `v` in a draft that can carry it. */
  ghost predicate IsInteger(s: seq<Byte>, v: nat, draft: DraftVersion)
  {
    match draft
    case Draft14 => |s| == QuicSize(v) && DecodeQuic(s) == Some((v, |s|))
    case Draft16 => |s| == QuicSize(v) && DecodeQuic(s) == Some((v, |s|))
    case Draft17 => v < TwoTo64 && s == Encode(v)
    case Draft18OrLater => v < TwoTo64 && s == Encode(v)
    case OtherDraft => false
  }

  lemma QuicHead(n: nat, v: nat)
    requires n == QuicSize(v) && v < 0x4000_0000_0000_0000
    ensures Shr8(v, n - 1) < 0x40
  {
    Pow256Table();
    ShrBound(v, n - 1, 0x40);
  }

  lemma QuicReads(n: nat, h: nat, tail: seq<Byte>)
    requires (n == 1 || n == 2 || n == 4 || n == 8) && h < 0x40 && |tail| == n - 1
    ensures DecodeQuic([QuicPrefix(n) + h] + tail) == Some((Accumulate(h, tail), n))
  {
    QuicFirst(n, h);
    assert ([QuicPrefix(n) + h] + tail)[1..n] == tail;
  }

  lemma QuicOr(n: nat, h: nat)
    requires (n == 1 || n == 2 || n == 4 || n == 8) && h < 0x40
    ensures BitOr(h, QuicPrefix(n)) == QuicPrefix(n) + h
  {
    Pow2Values();
    BitOrDisjoint(h, QuicPrefix(n), 6);
  }

  /** The countdown loop of `append_integer`: the low `n` bytes, first byte first. */
  method AppendBytes(b: seq<Byte>, value: nat, n: nat) returns (out: seq<Byte>)
    ensures out == b + BE(n, value)
  {
    out := b;
    var remaining := n;
    while remaining > 0
      invariant 0 <= remaining <= n
      invariant out + BE(remaining, value) == b + BE(n, value)
    {
      HeadBE(remaining, value);
      out := out + [Shr8(value, remaining - 1) % 256];
      remaining := remaining - 1;
    }
  }

  lemma Behind(b: seq<Byte>, first: seq<Byte>, rest: seq<Byte>)
    ensures (b + first + rest)[|b|..] == first + rest && (b + first + rest)[..|b|] == b
  {
  }

  /** The draft-14 and draft-16 branch of `append_integer`, for the values it accepts. */
  method AppendQuic(b: seq<Byte>, value: nat) returns (out: seq<Byte>)
    requires value < 0x4000_0000_0000_0000
    ensures |out| >= |b| && out[..|b|] == b && IsInteger(out[|b|..], value, Draft14)
  {
    var size := if value < 64 then 1 else if value < 16384 then 2 else if value < 0x4000_0000 then 4 else 8;
    var prefix := if size == 1 then 0 else if size == 2 then 0x40 else if size == 4 then 0x80 else 0xC0;
    var h := Shr8(value, size - 1);
    QuicHead(size, value);
    QuicOr(size, h);
    QuicReads(size, h, BE(size - 1, value));
    HighAndLow(size - 1, value);
    out := AppendBytes(b + [BitOr(h, prefix)], value, size - 1);
    Behind(b, [BitOr(h, prefix)], BE(size - 1, value));
  }

  /** The size computation of the draft-17 and later branch, which stops at eight bytes first. */
  method SizeByEights(value: nat) returns (size: nat)
    ensures size == Length(value)
  {
    size := 1;
    while size < 8 && value >= Pow2(size * 7)
      invariant 1 <= size <= 8 && size <= Length(value)
    {
      LongerBy7(value, size);
      size := size + 1;
    }
    LongerBy7(value, size);
    if size == 8 && value >= Pow2(56) {
      size := 9;
    }
  }

  /** The draft-17 and later branch of `append_integer`. */
  method AppendVi64(b: seq<Byte>, value: nat) returns (out: seq<Byte>)
    requires value < TwoTo64
    ensures out == b + Encode(value)
  {
    var size := SizeByEights(value);
    LengthFits(value);
    FirstIsOr(size, Shr8(value, size - 1));
    var first: Byte := 0xFF;
    if size != 9 {
      first := BitOr(0xFF * Pow2(9 - size) % 256, Shr8(value, size - 1) % 256);
    }
    out := AppendBytes(b + [first], value, size - 1);
    assert out == b + ([first] + BE(size - 1, value));
  }

  /** `append_integer`: refuses exactly the values and drafts that have no form. */
  method AppendInteger(b: seq<Byte>, value: nat, draft: DraftVersion) returns (r: Option<seq<Byte>>)
    requires value < TwoTo64
    ensures r.None? <==>
      draft.OtherDraft? || ((draft.Draft14? || draft.Draft16?) && value >= 0x4000_0000_0000_0000)
    ensures r.Some? ==> |r.value| >= |b| && r.value[..|b|] == b && IsInteger(r.value[|b|..], value, draft)
  {
    if draft.Draft14? || draft.Draft16? {
      if value > 0x3FFF_FFFF_FFFF_FFFF {
        return None;
      }
      var out := AppendQuic(b, value);
      return Some(out);
    }
    if draft != Draft17 && draft != Draft18OrLater {
      return None;
    }
    var out := AppendVi64(b, value);
    return Some(out);
  }

  // ---- the reader

  lemma TestedBit(b: Byte, length: nat)
    requires 1 <= length <= 8 && LeadingOnes(b) >= length - 1
    ensures b / Pow2(8 - length) % 2 != 0 <==> LeadingOnes(b) >= length
  {
    Pow2Values();
  }

  /** The scan of the first byte: how many bytes the integer takes. */
  method CountBytes(first: Byte) returns (length: nat)
    ensures length == LeadingOnes(first) + 1
  {
    length := 1;
    while length < 9 && first / Pow2(8 - length) % 2 != 0
      invariant 1 <= length <= LeadingOnes(first) + 1
    {
      TestedBit(first, length);
      length := length + 1;
    }
    if length < 9 {
      TestedBit(first, length);
    }
  }

  /** The shift loop of `read_locmaf_varint` over the bytes after the first. */
  method ShiftInTail(high: nat, tail: seq<Byte>) returns (value: nat)
    requires (|tail| <= 7 && high < 0x80) || (|tail| <= 8 && high == 0)
    ensures value == Accumulate(high, tail)
  {
    value := high;
    var i := 0;
    while i < |tail|
      invariant 0 <= i <= |tail| && value == Accumulate(high, tail[..i])
    {
      assert tail[..i + 1][..i] == tail[..i];
      AccumulateFits(high, tail[..i + 1]);
      value := (value * 256 + tail[i]) % TwoTo64;
      i := i + 1;
    }
    assert tail[..i] == tail;
  }

  /** `read_locmaf_varint`: reads at `cursor`; the cursor moves only on success. */
  method Read(bytes: seq<Byte>, cursor: nat) returns (r: Option<nat>, next: nat)
    requires cursor <= |bytes|
    ensures match Decode(bytes[cursor..])
      case None => r == None && next == cursor
      case Some((v, n)) => r == Some(v) && next == cursor + n <= |bytes|
  {
    next := cursor;
    if cursor >= |bytes| {
      return None, next;
    }
    var first := bytes[cursor];
    var length := CountBytes(first);
    if |bytes| - cursor < length {
      return None, next;
    }
    if length < 9 {
      HeadRemainder(first, length);
    }
    SliceOfDrop(bytes, cursor, 1, length);
    var value := ShiftInTail(if length < 9 then first % Pow2(8 - length) else 0, bytes[cursor + 1..cursor + length]);
    next := cursor + length;
    return Some(value), next;
  }
}
