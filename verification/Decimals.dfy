/** Decimal text of unsigned numbers, and the strict reader of 64-bit ones. */
module Decimals {
  import opened Bytes

  function Digit(d: nat): (c: char)
    requires d < 10
    ensures '0' <= c <= '9' && (c - '0') as nat == d
  {
    '0' + d as char
  }

  /** `std::to_string` of an unsigned number. */
  function Decimal(n: nat): (s: string)
    ensures s != "" && (|s| == 1 <==> n < 10)
  {
    if n < 10 then [Digit(n)] else Decimal(n / 10) + [Digit(n % 10)]
  }

  lemma {:induction false} DecimalInjective(m: nat, n: nat)
    requires Decimal(m) == Decimal(n)
    ensures m == n
    decreases m
  {
    var s := Decimal(m);
    if m >= 10 {
      assert s == Decimal(n / 10) + [Digit(n % 10)];
      assert Decimal(m / 10) == s[..|s| - 1] == Decimal(n / 10);
      DecimalInjective(m / 10, n / 10);
      assert s[|s| - 1] == Digit(m % 10) == Digit(n % 10);
    } else {
      assert s[0] == Digit(m) == Digit(n);
    }
  }

  lemma {:induction false} DecimalIsDigits(n: nat)
    ensures forall c | c in Decimal(n) :: '0' <= c <= '9'
  {
    if n >= 10 {
      DecimalIsDigits(n / 10);
    }
  }

  /** The digit loop of `parse_u64`; None at a bad digit or past 64 bits. */
  function ParseFrom(s: string, value: nat): Option<nat>
    decreases |s|
  {
    if s == "" then Some(value)
    else if !('0' <= s[0] <= '9') then None
    else
      var digit := (s[0] - '0') as nat;
      if value > (MaxU64 - digit) / 10 then None else ParseFrom(s[1..], value * 10 + digit)
  }

  /** `parse_u64`. */
  function ParseU64(s: string): Option<nat> {
    if s == "" then None else ParseFrom(s, 0)
  }

  lemma {:induction false} ParseThen(a: string, b: string, value: nat)
    ensures ParseFrom(a + b, value) == if ParseFrom(a, value).None? then None else ParseFrom(b, ParseFrom(a, value).value)
    decreases |a|
  {
    if a == "" {
      assert a + b == b;
    } else {
      assert (a + b)[1..] == a[1..] + b;
      if '0' <= a[0] <= '9' && value <= (MaxU64 - (a[0] - '0') as nat) / 10 {
        ParseThen(a[1..], b, value * 10 + (a[0] - '0') as nat);
      }
    }
  }

  lemma {:induction false} ParseDecimalFrom(n: nat)
    requires n <= MaxU64
    ensures ParseFrom(Decimal(n), 0) == Some(n)
  {
    if n < 10 {
      assert Decimal(n)[1..] == "";
    } else {
      ParseDecimalFrom(n / 10);
      ParseThen(Decimal(n / 10), [Digit(n % 10)], 0);
      assert [Digit(n % 10)][1..] == "";
      assert n == n / 10 * 10 + n % 10;
    }
  }

  /** Reading back what was printed. */
  lemma DecimalRoundTrip(n: nat)
    requires n <= MaxU64
    ensures ParseU64(Decimal(n)) == Some(n)
  {
    ParseDecimalFrom(n);
  }

  ghost predicate AllDigits(s: string) {
    forall i | 0 <= i < |s| :: '0' <= s[i] <= '9'
  }

  /** The number a string of digits stands for, whatever its size. */
  ghost function DigitsValue(s: string): nat
    requires AllDigits(s)
  {
    if s == "" then 0 else DigitsValue(s[..|s| - 1]) * 10 + (s[|s| - 1] - '0') as nat
  }

  lemma {:induction false} ParseFromExactly(s: string)
    ensures ParseFrom(s, 0) == if AllDigits(s) && DigitsValue(s) <= MaxU64 then Some(DigitsValue(s)) else None
  {
    if s != "" {
      var init, c := s[..|s| - 1], s[|s| - 1];
      assert s == init + [c];
      assert AllDigits(s) <==> AllDigits(init) && '0' <= c <= '9';
      ParseFromExactly(init);
      ParseThen(init, [c], 0);
    }
  }

  /** What is read: exactly the non-empty strings of digits whose number fits 64 bits, as that number. */
  lemma ParsesExactly(s: string)
    ensures ParseU64(s).Some? <==> s != "" && AllDigits(s) && DigitsValue(s) <= MaxU64
    ensures ParseU64(s).Some? ==> ParseU64(s).value == DigitsValue(s)
  {
    ParseFromExactly(s);
  }

  method ReadU64(s: string) returns (r: Option<nat>)
    ensures r == ParseU64(s)
    ensures r.Some? <==> s != "" && AllDigits(s) && DigitsValue(s) <= MaxU64
    ensures r.Some? ==> r.value == DigitsValue(s)
  {
    ParsesExactly(s);
    if s == "" {
      return None;
    }
    var value: nat := 0;
    assert s[0..] == s;
    for i := 0 to |s|
      invariant ParseFrom(s, 0) == ParseFrom(s[i..], value)
    {
      assert s[i..][1..] == s[i + 1..];
      if s[i] < '0' || s[i] > '9' {
        return None;
      }
      var digit := (s[i] - '0') as nat;
      if value > (MaxU64 - digit) / 10 {
        return None;
      }
      value := value * 10 + digit;
    }
    assert s[|s|..] == "";
    return Some(value);
  }
}
