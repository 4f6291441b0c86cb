/** Bytes, fixed-width big-endian integers and the few bit operations the codecs use. */
module Bytes {

  datatype Option<+T> = None | Some(value: T)

  type Byte = b: int | 0 <= b < 256

  const MaxU32 := 0xFFFF_FFFF
  const TwoTo32 := 0x1_0000_0000
  const MaxU64 := 0xFFFF_FFFF_FFFF_FFFF
  const TwoTo64 := 0x1_0000_0000_0000_0000

  function Pow2(k: nat): (r: nat)
    ensures r > 0
  {
    if k == 0 then 1 else 2 * Pow2(k - 1)
  }

  function Pow256(n: nat): (r: nat)
    ensures r > 0
  {
    if n == 0 then 1 else 256 * Pow256(n - 1)
  }

  /** Bitwise or of two non-negative integers. */
  function BitOr(a: nat, b: nat): nat
  {
    if a == 0 then b
    else if b == 0 then a
    else 2 * BitOr(a / 2, b / 2) + (if a % 2 == 1 || b % 2 == 1 then 1 else 0)
  }

  /** True when bit `k` of `v` is set: what `v & (1 << k)` tests. */
  predicate HasBit(v: nat, k: nat)
  {
    (v / Pow2(k)) % 2 == 1
  }

  /** No bit of `flags` is outside `mask`: what `flags & ~mask` tests. */
  predicate OnlyBits(flags: nat, mask: nat) {
    flags == 0 || ((flags % 2 == 1 ==> mask % 2 == 1) && OnlyBits(flags / 2, mask / 2))
  }

  /** `v >> 8 * k`. */
  function Shr8(v: nat, k: nat): nat
  {
    if k == 0 then v else Shr8(v / 256, k - 1)
  }

  /** The `n` low-order bytes of `v`, most significant first. */
  function BE(n: nat, v: nat): (s: seq<Byte>)
    ensures |s| == n
  {
    if n == 0 then [] else BE(n - 1, v / 256) + [v % 256]
  }

  /** `high` with the bytes of `s` shifted in one after the other. */
  function Accumulate(high: nat, s: seq<Byte>): nat
  {
    if s == [] then high else Accumulate(high, s[..|s| - 1]) * 256 + s[|s| - 1]
  }

  function FromBE(s: seq<Byte>): nat
  {
    Accumulate(0, s)
  }

  /** A 32-bit field as two's complement. */
  function Signed32(v: nat): int {
    if v >= 0x8000_0000 then v - TwoTo32 else v
  }

  function Unsigned32(v: int): nat {
    v % TwoTo32
  }

  /** The characters of a box type. */
  function Name(s: seq<Byte>): string {
    seq(|s|, i requires 0 <= i < |s| => s[i] as char)
  }

  function Sum(s: seq<int>): int
  {
    if s == [] then 0 else Sum(s[..|s| - 1]) + s[|s| - 1]
  }

  lemma {:induction false} SumNonNegative(s: seq<nat>)
    ensures Sum(s) >= 0
  {
    if s != [] {
      SumNonNegative(s[..|s| - 1]);
    }
  }

  lemma {:induction false} SumAppend(a: seq<int>, b: seq<int>)
    ensures Sum(a + b) == Sum(a) + Sum(b)
  {
    if b == [] {
      assert a + b == a;
    } else {
      assert (a + b)[..|a + b| - 1] == a + b[..|b| - 1];
      SumAppend(a, b[..|b| - 1]);
    }
  }

  lemma SliceOfDrop<T>(s: seq<T>, start: nat, i: nat, j: nat)
    requires start + j <= |s| && i <= j
    ensures s[start..][i..j] == s[start + i..start + j]
  {
  }

  lemma DropOfDrop<T>(s: seq<T>, start: nat, i: nat)
    requires start + i <= |s|
    ensures s[start..][i..] == s[start + i..]
  {
  }

  lemma {:induction false} BitOrCommutes(a: nat, b: nat)
    ensures BitOr(a, b) == BitOr(b, a)
  {
    if a != 0 && b != 0 {
      BitOrCommutes(a / 2, b / 2);
    }
  }

  lemma {:induction false} DivModUnique(x: int, p: int, q: int, r: int)
    requires p > 0 && x == p * q + r && 0 <= r < p
    ensures x / p == q && x % p == r
  {
    var d := x / p - q;
    assert p * d == r - x % p;
    assert d >= 1 ==> p * d >= p;
    assert d <= -1 ==> p * d <= -p;
  }

  lemma {:induction false} BitOrDisjoint(a: nat, b: nat, k: nat)
    requires a < Pow2(k) && b % Pow2(k) == 0
    ensures BitOr(a, b) == a + b
  {
    if k > 0 && a != 0 && b != 0 {
      var p := Pow2(k - 1);
      var q := b / (2 * p);
      assert b == 2 * (p * q);
      DivModUnique(b / 2, p, q, 0);
      BitOrDisjoint(a / 2, b / 2, k - 1);
    }
  }

  /** The first byte of a field is the high part, the others are the rest written alone. */
  lemma {:induction false} HeadBE(n: nat, v: nat)
    requires n > 0
    ensures BE(n, v) == [Shr8(v, n - 1) % 256] + BE(n - 1, v)
  {
    if n > 1 {
      HeadBE(n - 1, v / 256);
    }
  }

  /** A number is its high part with its low bytes shifted in. */
  lemma {:induction false} HighAndLow(n: nat, v: nat)
    ensures v == Accumulate(Shr8(v, n), BE(n, v))
  {
    if n > 0 {
      HighAndLow(n - 1, v / 256);
      assert BE(n, v)[..n - 1] == BE(n - 1, v / 256);
    }
  }

  lemma {:induction false} ShrBound(v: nat, k: nat, m: nat)
    requires v < m * Pow256(k)
    ensures Shr8(v, k) < m
  {
    if k > 0 {
      assert m * Pow256(k) == 256 * (m * Pow256(k - 1));
      ShrBound(v / 256, k - 1, m);
    }
  }

  lemma {:induction false} AccumulateBound(h: nat, s: seq<Byte>, m: nat)
    requires h < m
    ensures Accumulate(h, s) < m * Pow256(|s|)
  {
    if s != [] {
      AccumulateBound(h, s[..|s| - 1], m);
      assert m * Pow256(|s|) == 256 * (m * Pow256(|s| - 1));
    }
  }

  lemma FromBEBound(s: seq<Byte>)
    ensures FromBE(s) < Pow256(|s|)
  {
    AccumulateBound(0, s, 1);
  }

  /** Writing a value that fits and reading it back gives the value. */
  lemma ReadBackBE(n: nat, v: nat)
    requires v < Pow256(n)
    ensures FromBE(BE(n, v)) == v
  {
    HighAndLow(n, v);
    ShrBound(v, n, 1);
  }

  /** Reading bytes and writing them back at the same width gives the bytes. */
  lemma {:induction false} RewriteBE(s: seq<Byte>)
    ensures BE(|s|, FromBE(s)) == s
  {
    if s != [] {
      RewriteBE(s[..|s| - 1]);
      assert FromBE(s) / 256 == FromBE(s[..|s| - 1]);
    }
  }

  lemma Pow256Values()
    ensures Pow256(1) == 256 && Pow256(2) == 0x1_0000 && Pow256(3) == 0x100_0000
    ensures Pow256(4) == TwoTo32 && Pow256(8) == TwoTo64
  {
    assert Pow256(4) == TwoTo32;
    assert Pow256(8) == TwoTo64;
  }

  function Repeat(v: int, n: nat): (r: seq<int>)
    ensures |r| == n
  {
    seq(n, _ => v)
  }

  /** The value of a hexadecimal digit of either case. */
  function HexDigit(c: Byte): Option<nat> {
    if 48 <= c <= 57 then Some(c - 48)
    else if 97 <= c <= 102 then Some(10 + c - 97)
    else if 65 <= c <= 70 then Some(10 + c - 65)
    else None
  }
}
