/** What a senc box must hold for the encoder to read these vectors and subsamples out of it. */
module LocmafReadingSenc {
  import opened Bytes
  import opened LocmafChunk
  import opened RunFormat
  import opened LocmafReading

  // ---- one sample

  /** Subsamples in pairs, none negative. */
  type Row = r: SencRow | |r.clear| == |r.encrypted| && Naturals(r.clear) && Naturals(r.encrypted)
    witness SencRow([], [], [])

  predicate Naturals(s: seq<int>) {
    forall i | 0 <= i < |s| :: s[i] >= 0
  }

  function PairsText(clear: seq<int>, encrypted: seq<int>): seq<Byte>
    requires |clear| == |encrypted| && Naturals(clear) && Naturals(encrypted)
  {
    if clear == [] then []
    else BE(2, clear[0]) + BE(4, encrypted[0]) + PairsText(clear[1..], encrypted[1..])
  }

  ghost predicate Fits16(s: seq<int>) {
    forall i | 0 <= i < |s| :: 0 <= s[i] < 0x1_0000
  }

  /** The vector of a sample of this size and, when there is a map, its subsamples. */
  ghost predicate IsRow(row: Row, iv: nat, mapped: bool, size: int) {
    |row.iv| == iv && Fits16(row.clear) && Fits32(row.clear) && Fits32(row.encrypted) &&
    if mapped then
      iv + 2 + 6 * |row.clear| <= 255 && (row.clear == [] || Sum(row.clear) + Sum(row.encrypted) == size)
    else row.clear == []
  }

  function RowText(row: Row, mapped: bool): seq<Byte> {
    row.iv + if mapped then BE(2, |row.clear|) + PairsText(row.clear, row.encrypted) else []
  }

  lemma {:induction false} PairsRead(b: seq<Byte>, p: nat, clear: seq<int>, encrypted: seq<int>)
    requires p <= |b| && |clear| == |encrypted| && Fits16(clear) && Fits32(clear) && Fits32(encrypted)
    requires Stands(b, p, PairsText(clear, encrypted))
    ensures ReadEntries(b, p, |clear|) == Ok((clear, encrypted, p + 6 * |clear|))
    decreases |clear|
  {
    hide BE, FromBE, Stands;
    Pow256Values();
    if clear != [] {
      var c, e, rest := BE(2, clear[0]), BE(4, encrypted[0]), PairsText(clear[1..], encrypted[1..]);
      StandsConcat(b, p, c + e, rest);
      StandsConcat(b, p, c, e);
      LengthBE(2, clear[0]);
      LengthBE(4, encrypted[0]);
      GotWord(b, p, 2, clear[0]);
      GotWord(b, p + 2, 4, encrypted[0]);
      PairsRead(b, p + 6, clear[1..], encrypted[1..]);
      assert [clear[0]] + clear[1..] == clear && [encrypted[0]] + encrypted[1..] == encrypted;
    }
  }

  lemma {:induction false} PairsWere(b: seq<Byte>, p: nat, n: nat)
    requires p <= |b| && ReadEntries(b, p, n).Ok?
    ensures var (clear, encrypted, _) := ReadEntries(b, p, n).value;
      Fits16(clear) && Stands(b, p, PairsText(clear, encrypted)) && |PairsText(clear, encrypted)| == 6 * n
    decreases n
  {
    hide BE, FromBE, Stands;
    Pow256Values();
    if n == 0 {
      StandsNothing(b, p);
    } else {
      var (clear, encrypted, next) := ReadEntries(b, p, n).value;
      PairsWere(b, p + 6, n - 1);
      assert clear[1..] == ReadEntries(b, p + 6, n - 1).value.0 && encrypted[1..] == ReadEntries(b, p + 6, n - 1).value.1;
      var c, e, rest := BE(2, clear[0]), BE(4, encrypted[0]), PairsText(clear[1..], encrypted[1..]);
      LengthBE(2, clear[0]);
      LengthBE(4, encrypted[0]);
      GotWord(b, p, 2, clear[0]);
      GotWord(b, p + 2, 4, encrypted[0]);
      StandsConcat(b, p, c + e, rest);
      StandsConcat(b, p, c, e);
    }
  }

  lemma {:induction false} PairsLength(clear: seq<int>, encrypted: seq<int>)
    requires |clear| == |encrypted| && Fits32(clear) && Fits32(encrypted)
    ensures |PairsText(clear, encrypted)| == 6 * |clear|
  {
    hide BE;
    if clear != [] {
      PairsLength(clear[1..], encrypted[1..]);
      LengthBE(2, clear[0]);
      LengthBE(4, encrypted[0]);
    }
  }

  /** Bytes that are read whole. */
  lemma StandsBytes(b: seq<Byte>, p: nat, s: seq<Byte>)
    ensures Stands(b, p, s) ==> p + |s| <= |b| && b[p..p + |s|] == s
  {
  }

  lemma RowRead(b: seq<Byte>, p: nat, iv: nat, mapped: bool, size: int, row: Row)
    requires p <= |b| && IsRow(row, iv, mapped, size) && Stands(b, p, RowText(row, mapped))
    ensures ReadSencRow(b, p, iv, mapped, size) == Ok((row, p + |RowText(row, mapped)|))
  {
    hide BE, FromBE, Stands, PairsText, ReadEntries;
    Pow256Values();
    StandsBytes(b, p, row.iv);
    if mapped {
      var n, pairs := |row.clear|, PairsText(row.clear, row.encrypted);
      StandsConcat(b, p, row.iv, BE(2, n) + pairs);
      StandsConcat(b, p + iv, BE(2, n), pairs);
      LengthBE(2, n);
      GotWord(b, p + iv, 2, n);
      PairsRead(b, p + iv + 2, row.clear, row.encrypted);
      PairsLength(row.clear, row.encrypted);
    } else {
      assert row.iv + [] == row.iv;
    }
  }

  lemma RowWas(b: seq<Byte>, p: nat, iv: nat, mapped: bool, size: int)
    requires p <= |b| && ReadSencRow(b, p, iv, mapped, size).Ok?
    ensures var (row, next) := ReadSencRow(b, p, iv, mapped, size).value;
      IsRow(row, iv, mapped, size) && Stands(b, p, RowText(row, mapped)) && next == p + |RowText(row, mapped)|
  {
    hide BE, FromBE, PairsText, ReadEntries;
    Pow256Values();
    var (row, next) := ReadSencRow(b, p, iv, mapped, size).value;
    assert Stands(b, p, row.iv);
    if mapped {
      var n, pairs := |row.clear|, PairsText(row.clear, row.encrypted);
      GotWord(b, p + iv, 2, n);
      LengthBE(2, n);
      PairsWere(b, p + iv + 2, n);
      StandsConcat(b, p, row.iv, BE(2, n) + pairs);
      StandsConcat(b, p + iv, BE(2, n), pairs);
    } else {
      assert row.iv + [] == row.iv;
    }
  }

  // ---- all samples

  ghost predicate AreRows(rows: seq<Row>, iv: nat, mapped: bool, sizes: seq<int>) {
    |rows| == |sizes| && forall i | 0 <= i < |rows| :: IsRow(rows[i], iv, mapped, sizes[i])
  }

  function RowsText(rows: seq<Row>, mapped: bool): seq<Byte> {
    if rows == [] then [] else RowText(rows[0], mapped) + RowsText(rows[1..], mapped)
  }

  function Vectors(rows: seq<Row>): seq<Byte> {
    if rows == [] then [] else rows[0].iv + Vectors(rows[1..])
  }

  function Clears(rows: seq<Row>): seq<int> {
    if rows == [] then [] else rows[0].clear + Clears(rows[1..])
  }

  function Encrypteds(rows: seq<Row>): seq<int> {
    if rows == [] then [] else rows[0].encrypted + Encrypteds(rows[1..])
  }

  /** The rows laid end to end, with the number of subsamples of each. */
  function SencOf(rows: seq<Row>, iv: nat, mapped: bool): Senc {
    Senc(Vectors(rows), iv != 0,
         if mapped then Some(Subsamples(seq(|rows|, i requires 0 <= i < |rows| => |rows[i].clear|), Clears(rows), Encrypteds(rows)))
         else None)
  }

  lemma SencFirst(row: Row, rest: seq<Row>, iv: nat, mapped: bool)
    ensures SencOf([row] + rest, iv, mapped) == ConsRow(row, SencOf(rest, iv, mapped))
    ensures SencOf([], iv, mapped) == Senc([], iv != 0, if mapped then Some(Subsamples([], [], [])) else None)
  {
    var all := [row] + rest;
    assert all[0] == row && all[1..] == rest;
    var counts := seq(|rest|, i requires 0 <= i < |rest| => |rest[i].clear|);
    assert seq(|all|, i requires 0 <= i < |all| => |all[i].clear|) == [|row.clear|] + counts;
    assert mapped ==> SencOf([], iv, mapped).maps.value.counts == [];
  }

  lemma RowsFirst(row: Row, rest: seq<Row>, iv: nat, mapped: bool, sizes: seq<int>)
    requires sizes != []
    ensures AreRows([row] + rest, iv, mapped, sizes) <==>
      IsRow(row, iv, mapped, sizes[0]) && AreRows(rest, iv, mapped, sizes[1..])
  {
    hide IsRow;
    var all := [row] + rest;
    assert all[0] == row && forall i | 0 <= i < |rest| :: all[i + 1] == rest[i];
  }

  lemma {:induction false} RowsRead(b: seq<Byte>, p: nat, iv: nat, mapped: bool, sizes: seq<int>, rows: seq<Row>)
    requires p <= |b| && AreRows(rows, iv, mapped, sizes)
    requires Stands(b, p, RowsText(rows, mapped))
    ensures ReadSenc(b, p, iv, mapped, sizes) == Ok((SencOf(rows, iv, mapped), p + |RowsText(rows, mapped)|))
    decreases |sizes|
  {
    hide BE, FromBE, Stands, ReadSencRow, RowText, IsRow, AreRows, SencOf;
    if sizes == [] {
      NoRows(rows, iv, mapped);
    } else {
      SomeRows(rows, iv, mapped, sizes);
      var row, rest := rows[0], rows[1..];
      assert rows == [row] + rest;
      RowsFirst(row, rest, iv, mapped, sizes);
      SencFirst(row, rest, iv, mapped);
      StandsConcat(b, p, RowText(row, mapped), RowsText(rest, mapped));
      StandsBytes(b, p, RowText(row, mapped));
      RowRead(b, p, iv, mapped, sizes[0], row);
      RowsRead(b, p + |RowText(row, mapped)|, iv, mapped, sizes[1..], rest);
    }
  }

  lemma NoRows(rows: seq<Row>, iv: nat, mapped: bool)
    requires AreRows(rows, iv, mapped, [])
    ensures rows == [] && RowsText(rows, mapped) == []
    ensures SencOf(rows, iv, mapped) == Senc([], iv != 0, if mapped then Some(Subsamples([], [], [])) else None)
  {
    SencFirst(SencRow([], [], []), [], iv, mapped);
  }

  lemma SomeRows(rows: seq<Row>, iv: nat, mapped: bool, sizes: seq<int>)
    requires AreRows(rows, iv, mapped, sizes) && sizes != []
    ensures rows != []
  {
  }

  lemma {:induction false} RowsWere(b: seq<Byte>, p: nat, iv: nat, mapped: bool, sizes: seq<int>) returns (rows: seq<Row>)
    requires p <= |b| && ReadSenc(b, p, iv, mapped, sizes).Ok?
    ensures AreRows(rows, iv, mapped, sizes)
    ensures Stands(b, p, RowsText(rows, mapped)) &&
      ReadSenc(b, p, iv, mapped, sizes).value == (SencOf(rows, iv, mapped), p + |RowsText(rows, mapped)|)
    decreases |sizes|
  {
    hide BE, FromBE, Stands, ReadSencRow, RowText, IsRow, SencOf;
    if sizes == [] {
      rows := [];
      NoRows(rows, iv, mapped);
      StandsNothing(b, p);
    } else {
      var row, next := ReadSencRow(b, p, iv, mapped, sizes[0]).value.0, ReadSencRow(b, p, iv, mapped, sizes[0]).value.1;
      RowWas(b, p, iv, mapped, sizes[0]);
      var rest := RowsWere(b, next, iv, mapped, sizes[1..]);
      rows := [row] + rest;
      RowsFirst(row, rest, iv, mapped, sizes);
      SencFirst(row, rest, iv, mapped);
      assert rows[0] == row && rows[1..] == rest;
      StandsConcat(b, p, RowText(row, mapped), RowsText(rest, mapped));
    }
  }

  // ---- the box

  /** The payload of a senc box with these rows. */
  ghost predicate IsSenc(b: seq<Byte>, c: Context, sizes: seq<int>, s: Senc, mapped: bool, rows: seq<Row>) {
    c.protectedTrack && AreRows(rows, c.iv, mapped, sizes) && |rows| <= MaxU32 && s == SencOf(rows, c.iv, mapped) &&
    b == [0, 0, 0, if mapped then 2 else 0] + BE(4, |rows|) + RowsText(rows, mapped)
  }

  lemma MapFlags()
    ensures BE(4, 0) == [0, 0, 0, 0] && BE(4, 2) == [0, 0, 0, 2]
    ensures HasBit(2, 1) && !HasBit(0, 1)
    ensures forall v: nat :: OnlyBits(v, 2) <==> v == 0 || v == 2
  {
    assert BE(2, 0) == [0, 0];
    assert BE(3, 0) == [0, 0, 0];
    forall v: nat
      ensures OnlyBits(v, 2) <==> v == 0 || v == 2
    {
      assert OnlyBits(v / 2 / 2, 0) <==> v / 2 / 2 == 0 by {
        NoneAllowed(v / 2 / 2);
      }
    }
  }

  lemma {:induction false} NoneAllowed(v: nat)
    ensures OnlyBits(v, 0) <==> v == 0
  {
    if v > 0 {
      NoneAllowed(v / 2);
    }
  }

  lemma SencExactly(b: seq<Byte>, c: Context, sizes: seq<int>, s: Senc)
    requires c.Valid()
    ensures Encryption(b, c, sizes) == Ok(s) <==>
      exists mapped: bool, rows: seq<Row> :: IsSenc(b, c, sizes, s, mapped, rows)
  {
    hide IsSenc, Encryption;
    if Encryption(b, c, sizes) == Ok(s) {
      SencWas(b, c, sizes, s);
    }
    if mapped: bool, rows: seq<Row> :| IsSenc(b, c, sizes, s, mapped, rows) {
      SencRead(b, c, sizes, s, mapped, rows);
    }
  }

  lemma SencRead(b: seq<Byte>, c: Context, sizes: seq<int>, s: Senc, mapped: bool, rows: seq<Row>)
    requires c.Valid() && IsSenc(b, c, sizes, s, mapped, rows)
    ensures Encryption(b, c, sizes) == Ok(s)
  {
    hide BE, FromBE, Stands, AreRows, SencOf, ReadSenc, RowsText, HasBit, OnlyBits;
    Pow256Values();
    MapFlags();
    RowsMatch(rows, c.iv, mapped, sizes);
    var vf: nat := if mapped then 2 else 0;
    StandsWhole(b, BE(4, vf) + BE(4, |rows|) + RowsText(rows, mapped));
    StandsConcat(b, 0, BE(4, vf) + BE(4, |rows|), RowsText(rows, mapped));
    StandsConcat(b, 0, BE(4, vf), BE(4, |rows|));
    LengthBE(4, |rows|);
    LengthBE(4, vf);
    GotWord(b, 0, 4, vf);
    GotWord(b, 4, 4, |rows|);
    RowsRead(b, 8, c.iv, mapped, sizes, rows);
  }

  lemma RowsMatch(rows: seq<Row>, iv: nat, mapped: bool, sizes: seq<int>)
    requires AreRows(rows, iv, mapped, sizes)
    ensures |rows| == |sizes|
  {
  }

  lemma SencWas(b: seq<Byte>, c: Context, sizes: seq<int>, s: Senc)
    requires c.Valid() && Encryption(b, c, sizes) == Ok(s)
    ensures exists mapped: bool, rows: seq<Row> :: IsSenc(b, c, sizes, s, mapped, rows)
  {
    hide BE, FromBE, Stands, AreRows, SencOf, ReadSenc, RowsText, HasBit, OnlyBits;
    Pow256Values();
    MapFlags();
    var vf := Get(b, 0, 4).value.0;
    GotWord(b, 0, 4, vf);
    GotWord(b, 4, 4, |sizes|);
    var mapped := vf == 2;
    var rows := RowsWere(b, 8, c.iv, mapped, sizes);
    RowsMatch(rows, c.iv, mapped, sizes);
    StandsConcat(b, 0, BE(4, vf) + BE(4, |rows|), RowsText(rows, mapped));
    StandsConcat(b, 0, BE(4, vf), BE(4, |rows|));
    LengthBE(4, |rows|);
    LengthBE(4, vf);
    StandsWhole(b, BE(4, vf) + BE(4, |rows|) + RowsText(rows, mapped));
    assert IsSenc(b, c, sizes, s, mapped, rows);
  }
}
