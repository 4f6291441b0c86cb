/**
 * The sample tables from the other side: the boxes a table set can be written as, and
 * that the strict reader accepts these boxes and no others, as that table set.
 */
module SampleTableTexts {
  import opened Bytes
  import opened SampleTables
  import opened SampleLayout

  // ---- words

  function WordsText(ws: seq<nat>): seq<Byte> {
    if ws == [] then [] else WordsText(ws[..|ws| - 1]) + BE(4, ws[|ws| - 1])
  }

  ghost predicate Words32(ws: seq<nat>) {
    forall i | 0 <= i < |ws| :: ws[i] <= MaxU32
  }

  ghost predicate Reads(b: seq<Byte>, ws: seq<nat>) {
    |b| == 4 * |ws| && forall i | 0 <= i < |ws| :: Word(b, i) == ws[i]
  }

  lemma WordSlices(b: seq<Byte>, n: nat)
    requires |b| == 4 * n + 4
    ensures forall i | 0 <= i < n :: Word(b, i) == Word(b[..4 * n], i)
    ensures Word(b, n) == FromBE(b[4 * n..])
  {
    hide FromBE;
    forall i | 0 <= i < n
      ensures Word(b, i) == Word(b[..4 * n], i)
    {
      assert b[4 * i..4 * i + 4] == b[..4 * n][4 * i..4 * i + 4];
    }
    assert b[4 * n..4 * n + 4] == b[4 * n..];
  }

  lemma {:induction false} WordsExactly(b: seq<Byte>, ws: seq<nat>)
    requires Words32(ws)
    ensures b == WordsText(ws) <==> Reads(b, ws)
  {
    hide BE, FromBE, Word, WordsText;
    WordsLength(ws);
    if ws == [] {
      assert WordsText(ws) == [] by { NoWords(); }
    } else {
      var n := |ws| - 1;
      if |b| == 4 * |ws| {
        var init, last := b[..4 * n], b[4 * n..];
        WordsExactly(init, ws[..n]);
        WordSlices(b, n);
        WordsLast(init, last, ws);
        assert b == init + last;
        assert Reads(b, ws) <==> Reads(init, ws[..n]) && Word(b, n) == ws[n];
      }
    }
  }

  lemma NoWords()
    ensures WordsText([]) == []
  {
  }

  lemma WordsLast(init: seq<Byte>, last: seq<Byte>, ws: seq<nat>)
    requires ws != [] && |init| == 4 * (|ws| - 1) && |last| == 4 && ws[|ws| - 1] <= MaxU32
    ensures init + last == WordsText(ws) <==> init == WordsText(ws[..|ws| - 1]) && FromBE(last) == ws[|ws| - 1]
  {
    hide BE, FromBE;
    var n := |ws| - 1;
    WordsLength(ws[..n]);
    Pow256Values();
    ReadBackBE(4, ws[n]);
    RewriteBE(last);
    var text, word := WordsText(ws[..n]), BE(4, ws[n]);
    if init + last == text + word {
      assert init == (init + last)[..4 * n] && last == (init + last)[4 * n..];
      assert text == (text + word)[..4 * n] && word == (text + word)[4 * n..];
    }
  }

  lemma {:induction false} WordsLength(ws: seq<nat>)
    ensures |WordsText(ws)| == 4 * |ws|
  {
    hide BE;
    if ws != [] {
      WordsLength(ws[..|ws| - 1]);
      assert |BE(4, ws[|ws| - 1])| == 4;
    }
  }

  lemma WordFits(b: seq<Byte>, i: nat)
    requires 4 * i + 4 <= |b|
    ensures Word(b, i) <= MaxU32
  {
    FromBEBound(b[4 * i..4 * i + 4]);
    Pow256Values();
  }

  /** Two words and the rest. */
  lemma TwoExactly(b: seq<Byte>, x: nat, y: nat, tail: seq<nat>)
    requires x <= MaxU32 && y <= MaxU32 && Words32(tail)
    ensures b == WordsText([x, y] + tail) <==>
      |b| == 8 + 4 * |tail| && Word(b, 0) == x && Word(b, 1) == y && Behind(b, 2, tail)
  {
    hide FromBE, WordsText;
    var ws := [x, y] + tail;
    WordsExactly(b, ws);
    if Reads(b, ws) {
      assert Word(b, 0) == ws[0] && Word(b, 1) == ws[1];
      assert forall i | 0 <= i < |tail| :: tail[i] == ws[2 + i];
    }
    if |b| == 8 + 4 * |tail| && Word(b, 0) == x && Word(b, 1) == y && Behind(b, 2, tail) {
      forall i | 0 <= i < |ws|
        ensures Word(b, i) == ws[i]
      {
        if i >= 2 {
          assert tail[i - 2] == Word(b, 2 + (i - 2));
        }
      }
    }
  }

  /** These words stand behind the first `k`. */
  ghost predicate Behind(b: seq<Byte>, k: nat, tail: seq<nat>) {
    |b| >= 4 * k + 4 * |tail| && forall i | 0 <= i < |tail| :: tail[i] == Word(b, k + i)
  }

  // ---- sizes

  ghost predicate IsStsz(b: seq<Byte>, fixed: nat, sizes: seq<nat>) {
    fixed <= MaxU32 && |sizes| <= MaxU32 && Words32(sizes) &&
    b == WordsText([0, fixed, |sizes|] + if fixed == 0 then sizes else []) &&
    (fixed != 0 ==> forall i | 0 <= i < |sizes| :: sizes[i] == fixed)
  }

  lemma SizesExactly(b: seq<Byte>, room: nat, sizes: seq<nat>)
    ensures SizeTable(b, room) == Some(sizes) <==> |sizes| <= room && exists fixed: nat :: IsStsz(b, fixed, sizes)
  {
    hide FromBE, WordsText;
    if SizeTable(b, room) == Some(sizes) {
      WordFits(b, 1);
      WordFits(b, 2);
      forall i | 0 <= i < |sizes|
        ensures sizes[i] <= MaxU32 && sizes[i] == if Word(b, 1) == 0 then Word(b, 3 + i) else Word(b, 1)
      {
        if Word(b, 1) == 0 {
          WordFits(b, 3 + i);
        }
      }
      StszExactly(b, Word(b, 1), sizes);
      assert IsStsz(b, Word(b, 1), sizes);
    }
    if fixed: nat :| |sizes| <= room && IsStsz(b, fixed, sizes) {
      StszExactly(b, fixed, sizes);
      var read := SizeTable(b, room).value;
      forall i | 0 <= i < |sizes|
        ensures read[i] == sizes[i]
      {
        assert fixed == 0 ==> sizes[i] == Word(b, 3 + i);
      }
      assert read == sizes;
    }
  }

  lemma StszExactly(b: seq<Byte>, fixed: nat, sizes: seq<nat>)
    requires fixed <= MaxU32 && |sizes| <= MaxU32 && Words32(sizes)
    ensures b == WordsText([0, fixed, |sizes|] + if fixed == 0 then sizes else []) <==>
      |b| == 12 + (if fixed == 0 then 4 * |sizes| else 0) && Word(b, 0) == 0 && Word(b, 1) == fixed &&
      Word(b, 2) == |sizes| && (fixed == 0 ==> Behind(b, 3, sizes))
  {
    hide Word, WordsText, Behind;
    ThreeExactly(b, fixed, |sizes|, if fixed == 0 then sizes else []);
    BehindNothing(b, 3);
  }

  lemma ThreeExactly(b: seq<Byte>, fixed: nat, n: nat, listed: seq<nat>)
    requires fixed <= MaxU32 && n <= MaxU32 && Words32(listed)
    ensures b == WordsText([0, fixed, n] + listed) <==>
      |b| == 12 + 4 * |listed| && Word(b, 0) == 0 && Word(b, 1) == fixed && Word(b, 2) == n && Behind(b, 3, listed)
  {
    hide Word, WordsText, Behind, Words32;
    OneMoved(fixed, n, listed);
    TwoExactly(b, 0, fixed, [n] + listed);
    BehindFirst(b, 2, n, listed);
  }

  lemma OneMoved(fixed: nat, n: nat, listed: seq<nat>)
    requires n <= MaxU32 && Words32(listed)
    ensures [0, fixed] + ([n] + listed) == [0, fixed, n] + listed && Words32([n] + listed)
  {
  }

  lemma BehindNothing(b: seq<Byte>, k: nat)
    ensures |b| >= 4 * k ==> Behind(b, k, [])
  {
  }

  lemma BehindFirst(b: seq<Byte>, k: nat, x: nat, tail: seq<nat>)
    ensures Behind(b, k, [x] + tail) <==> |b| >= 4 * k + 4 + 4 * |tail| && x == Word(b, k) && Behind(b, k + 1, tail)
  {
    hide FromBE;
    var all := [x] + tail;
    if Behind(b, k, all) {
      assert all[0] == Word(b, k + 0);
      forall i | 0 <= i < |tail|
        ensures tail[i] == Word(b, k + 1 + i)
      {
        assert all[1 + i] == Word(b, k + (1 + i));
      }
    }
    if |b| >= 4 * k + 4 + 4 * |tail| && x == Word(b, k) && Behind(b, k + 1, tail) {
      forall i | 0 <= i < |all|
        ensures all[i] == Word(b, k + i)
      {
        if i > 0 {
          assert tail[i - 1] == Word(b, k + 1 + (i - 1));
        }
      }
    }
  }

  // ---- timing

  /** A run as it is written. */
  datatype RawRun = RawRun(count: nat, raw: nat)

  function RunWords(runs: seq<RawRun>): (ws: seq<nat>)
    ensures |ws| == 2 * |runs|
  {
    if runs == [] then [] else RunWords(runs[..|runs| - 1]) + [runs[|runs| - 1].count, runs[|runs| - 1].raw]
  }

  ghost predicate RunsStand(b: seq<Byte>, runs: seq<RawRun>) {
    |b| >= 8 + 8 * |runs| &&
    forall j | 0 <= j < |runs| :: runs[j] == RawRun(Word(b, 2 + 2 * j), Word(b, 3 + 2 * j))
  }

  lemma {:induction false} RunWordsStand(b: seq<Byte>, runs: seq<RawRun>)
    requires |b| >= 8 + 8 * |runs|
    ensures Behind(b, 2, RunWords(runs)) <==> RunsStand(b, runs)
  {
    hide FromBE;
    if runs != [] {
      var n := |runs| - 1;
      RunWordsStand(b, runs[..n]);
      var before, ws := RunWords(runs[..n]), RunWords(runs);
      assert ws[2 * n] == runs[n].count && ws[2 * n + 1] == runs[n].raw;
      assert forall i | 0 <= i < 2 * n :: ws[i] == before[i];
      if Behind(b, 2, ws) {
        assert ws[2 * n] == Word(b, 2 + 2 * n) && ws[2 * n + 1] == Word(b, 2 + (2 * n + 1));
        assert Behind(b, 2, before);
      }
      if RunsStand(b, runs) {
        assert RunsStand(b, runs[..n]) by { assert forall j | 0 <= j < n :: runs[..n][j] == runs[j]; }
        assert runs[n] == RawRun(Word(b, 2 + 2 * n), Word(b, 3 + 2 * n));
        forall i | 0 <= i < 2 * n + 2
          ensures ws[i] == Word(b, 2 + i)
        {
          if i < 2 * n {
            assert before[i] == Word(b, 2 + i);
          }
        }
      }
    }
  }

  /** A version 1 value is signed. */
  function Value(version: nat, raw: nat): int {
    if version == 1 && raw >= 0x8000_0000 then raw - 0x1_0000_0000 else raw
  }

  function Unrolled(version: nat, runs: seq<RawRun>): seq<int>
    decreases |runs|
  {
    if runs == [] then [] else seq(runs[0].count, _ => Value(version, runs[0].raw)) + Unrolled(version, runs[1..])
  }

  ghost predicate IsTiming(b: seq<Byte>, composition: bool, version: nat, runs: seq<RawRun>, values: seq<int>) {
    version <= (if composition then 1 else 0) && |runs| <= MaxU32 &&
    (forall r | r in runs :: 0 < r.count <= MaxU32 && r.raw <= MaxU32) &&
    b == WordsText([version * 0x100_0000, |runs|] + RunWords(runs)) && values == Unrolled(version, runs)
  }

  lemma FirstWord(b: seq<Byte>, version: nat)
    requires |b| >= 8 && version <= 1
    ensures Word(b, 0) == version * 0x100_0000 <==> b[0] == version && FromBE(b[1..4]) == 0
  {
    hide FromBE;
    Pow256Values();
    assert b[0..4] == [b[0]] + b[1..4];
    FromBEBound(b[1..4]);
    FirstByte(b[0], b[1..4]);
  }

  lemma FirstByte(a: Byte, rest: seq<Byte>)
    requires |rest| == 3
    ensures FromBE([a] + rest) == a * 0x100_0000 + FromBE(rest)
  {
    assert rest == [rest[0], rest[1], rest[2]];
    assert [a] + rest == [a, rest[0], rest[1], rest[2]];
    FourBytes(a, rest[0], rest[1], rest[2]);
    ThreeBytes(rest[0], rest[1], rest[2]);
  }

  lemma ThreeBytes(a: Byte, b: Byte, c: Byte)
    ensures FromBE([a, b, c]) == a * 0x1_0000 + b * 0x100 + c
  {
    assert [a][..0] == [] && [a, b][..1] == [a] && [a, b, c][..2] == [a, b];
    assert Accumulate(0, [a]) == Accumulate(0, []) * 256 + a;
    assert FromBE([a, b]) == a * 0x100 + b;
  }

  lemma FourBytes(a: Byte, b: Byte, c: Byte, d: Byte)
    ensures FromBE([a, b, c, d]) == a * 0x100_0000 + b * 0x1_0000 + c * 0x100 + d
  {
    ThreeBytes(a, b, c);
    var s := [a, b, c, d];
    assert s[..3] == [a, b, c];
  }

  function RunsOf(version: nat, runs: seq<RawRun>): seq<Run> {
    seq(|runs|, j requires 0 <= j < |runs| => Run(runs[j].count, Value(version, runs[j].raw)))
  }

  lemma {:induction false} UnrolledLast(version: nat, runs: seq<RawRun>, r: RawRun)
    ensures Unrolled(version, runs + [r]) == Unrolled(version, runs) + seq(r.count, _ => Value(version, r.raw))
    decreases |runs|
  {
    if runs == [] {
      assert ([] + [r])[1..] == [];
    } else {
      assert (runs + [r])[1..] == runs[1..] + [r];
      UnrolledLast(version, runs[1..], r);
    }
  }

  lemma {:induction false} ExpandIs(version: nat, runs: seq<RawRun>)
    ensures Expand(RunsOf(version, runs)) == Unrolled(version, runs)
  {
    if runs != [] {
      var n := |runs| - 1;
      ExpandIs(version, runs[..n]);
      UnrolledLast(version, runs[..n], runs[n]);
      assert runs == runs[..n] + [runs[n]];
      assert RunsOf(version, runs)[..n] == RunsOf(version, runs[..n]);
      assert Repeat(Value(version, runs[n].raw), runs[n].count) == seq(runs[n].count, _ => Value(version, runs[n].raw));
    }
  }

  lemma RunsAlike(b: seq<Byte>, version: nat, runs: seq<RawRun>)
    requires |b| == 8 + 8 * |runs| && version <= 1 && RunsStand(b, runs)
    ensures Runs(b, version == 1, |runs|) == RunsOf(version, runs)
  {
    hide FromBE;
    forall j | 0 <= j < |runs|
      ensures Runs(b, version == 1, |runs|)[j] == RunsOf(version, runs)[j]
    {
      assert runs[j] == RawRun(Word(b, 2 + 2 * j), Word(b, 3 + 2 * j));
      WordFits(b, 3 + 2 * j);
    }
  }

  /** A timing box is its version, the number of its runs and the runs. */
  lemma TimingStands(b: seq<Byte>, version: nat, runs: seq<RawRun>)
    requires version <= 1 && |runs| <= MaxU32 && forall r | r in runs :: 0 < r.count <= MaxU32 && r.raw <= MaxU32
    ensures b == WordsText([version * 0x100_0000, |runs|] + RunWords(runs)) <==>
      |b| == 8 + 8 * |runs| && b[0] == version && FromBE(b[1..4]) == 0 && Word(b, 1) == |runs| && RunsStand(b, runs)
  {
    hide FromBE, WordsText, RunsStand;
    RunWordsFit(runs);
    TwoExactly(b, version * 0x100_0000, |runs|, RunWords(runs));
    if |b| == 8 + 8 * |runs| {
      RunWordsStand(b, runs);
      FirstWord(b, version);
    }
  }

  lemma {:induction false} RunWordsFit(runs: seq<RawRun>)
    requires forall r | r in runs :: 0 < r.count <= MaxU32 && r.raw <= MaxU32
    ensures Words32(RunWords(runs))
  {
    if runs != [] {
      RunWordsFit(runs[..|runs| - 1]);
      assert runs[|runs| - 1] in runs;
    }
  }

  lemma TimingRead(b: seq<Byte>, n: nat, composition: bool, version: nat, runs: seq<RawRun>, values: seq<int>)
    requires IsTiming(b, composition, version, runs, values) && |values| == n
    ensures TimingTable(b, n, composition) == Some(values)
  {
    hide FromBE, WordsText, Unrolled, Expand, RunWords, RunsStand;
    TimingStands(b, version, runs);
    RunsAlike(b, version, runs);
    ExpandIs(version, runs);
    forall run | run in RunsOf(version, runs)
      ensures run.count > 0
    {
      var j :| 0 <= j < |runs| && RunsOf(version, runs)[j] == run;
      assert runs[j] in runs;
    }
  }

  lemma TimingWas(b: seq<Byte>, n: nat, composition: bool)
    requires TimingTable(b, n, composition).Some?
    ensures exists version: nat, runs :: IsTiming(b, composition, version, runs, TimingTable(b, n, composition).value)
  {
    hide FromBE, WordsText, Unrolled, Expand, RunWords;
    var version: nat, k := b[0], Word(b, 1);
    WordFits(b, 1);
    var runs := seq(k, j requires 0 <= j < k => RawRun(Word(b, 2 + 2 * j), Word(b, 3 + 2 * j)));
    RunsAlike(b, version, runs);
    RunsFit(b, version, runs);
    TimingStands(b, version, runs);
    ExpandIs(version, runs);
    assert IsTiming(b, composition, version, runs, TimingTable(b, n, composition).value);
  }

  lemma RunsFit(b: seq<Byte>, version: nat, runs: seq<RawRun>)
    requires |b| == 8 + 8 * |runs| && RunsStand(b, runs) && Runs(b, version == 1, |runs|) == RunsOf(version, runs)
    requires forall run | run in Runs(b, version == 1, |runs|) :: run.count > 0
    ensures forall r | r in runs :: 0 < r.count <= MaxU32 && r.raw <= MaxU32
  {
    hide FromBE;
    forall j | 0 <= j < |runs|
      ensures 0 < runs[j].count <= MaxU32 && runs[j].raw <= MaxU32
    {
      assert RunsOf(version, runs)[j] in Runs(b, version == 1, |runs|);
      assert runs[j] == RawRun(Word(b, 2 + 2 * j), Word(b, 3 + 2 * j));
      WordFits(b, 2 + 2 * j);
      WordFits(b, 3 + 2 * j);
    }
  }

  lemma TimingExactly(b: seq<Byte>, n: nat, composition: bool, values: seq<int>)
    ensures TimingTable(b, n, composition) == Some(values) <==>
      |values| == n && exists version: nat, runs :: IsTiming(b, composition, version, runs, values)
  {
    hide FromBE, TimingAccepted, IsTiming;
    if TimingTable(b, n, composition) == Some(values) {
      TimingWas(b, n, composition);
    }
    if version: nat, runs :| |values| == n && IsTiming(b, composition, version, runs, values) {
      TimingRead(b, n, composition, version, runs, values);
    }
  }

  // ---- sync samples

  ghost predicate IsStss(b: seq<Byte>, n: nat, named: seq<nat>, sync: seq<bool>) {
    |named| <= MaxU32 && Words32(named) && b == WordsText([0, |named|] + named) && |sync| == n &&
    Naming(named, n) && forall i | 0 <= i < n :: sync[i] <==> i + 1 in named
  }

  /** A list of entries behind their number. */
  lemma EntriesExactly(b: seq<Byte>, named: seq<nat>)
    requires |named| <= MaxU32 && Words32(named)
    ensures b == WordsText([0, |named|] + named) <==>
      |b| == 8 + 4 * |named| && Word(b, 0) == 0 && Word(b, 1) == |named| && Entries(b, |named|) == named
  {
    hide FromBE, WordsText, Behind, Entries;
    TwoExactly(b, 0, |named|, named);
    if |b| == 8 + 4 * |named| {
      EntriesBehind(b, named);
    }
  }

  lemma EntriesBehind(b: seq<Byte>, named: seq<nat>)
    requires |b| == 8 + 4 * |named|
    ensures Entries(b, |named|) == named <==> Behind(b, 2, named)
  {
    hide FromBE;
    if Entries(b, |named|) == named {
      forall i | 0 <= i < |named|
        ensures named[i] == Word(b, 2 + i)
      {
        assert named[i] == Entries(b, |named|)[i];
      }
    }
    if Behind(b, 2, named) {
      assert Entries(b, |named|) == named;
    }
  }

  lemma EntriesFit32(b: seq<Byte>)
    requires |b| >= 8 && |b| == 8 + 4 * Word(b, 1)
    ensures Word(b, 1) <= MaxU32 && Words32(Entries(b, Word(b, 1)))
  {
    hide FromBE;
    WordFits(b, 1);
    forall j | 0 <= j < Word(b, 1)
      ensures Entries(b, Word(b, 1))[j] <= MaxU32
    {
      WordFits(b, 2 + j);
    }
  }

  lemma SyncExactly(stss: Option<seq<Byte>>, n: nat, sync: seq<bool>)
    ensures SyncTable(stss, n) == Some(sync) <==>
      if stss.None? then |sync| == n && forall i | 0 <= i < n :: sync[i]
      else exists named :: IsStss(stss.value, n, named, sync)
  {
    hide FromBE, WordsText, EntryFits, IsStss, SyncTable;
    if stss.None? {
      AllSync(n, sync);
    } else {
      if SyncTable(stss, n) == Some(sync) {
        SyncWas(stss.value, n, sync);
      }
      if named :| IsStss(stss.value, n, named, sync) {
        SyncRead(stss.value, n, named, sync);
      }
    }
  }

  lemma AllSync(n: nat, sync: seq<bool>)
    ensures SyncTable(None, n) == Some(sync) <==> |sync| == n && forall i | 0 <= i < n :: sync[i]
  {
    if |sync| == n && forall i | 0 <= i < n :: sync[i] {
      assert sync == SyncTable(None, n).value;
    }
  }

  lemma SyncWas(b: seq<Byte>, n: nat, sync: seq<bool>)
    requires SyncTable(Some(b), n) == Some(sync)
    ensures exists named :: IsStss(b, n, named, sync)
  {
    hide FromBE, WordsText, EntryFits, Naming, Entries;
    EntriesFit32(b);
    var named := Entries(b, Word(b, 1));
    EntriesExactly(b, named);
    Named(b, n, named);
    assert IsStss(b, n, named, sync);
  }

  lemma SyncRead(b: seq<Byte>, n: nat, named: seq<nat>, sync: seq<bool>)
    requires IsStss(b, n, named, sync)
    ensures SyncTable(Some(b), n) == Some(sync)
  {
    hide FromBE, WordsText, EntryFits, Naming, Entries;
    EntriesExactly(b, named);
    Named(b, n, named);
    assert SyncTable(Some(b), n).value == sync;
  }

  ghost predicate Naming(named: seq<nat>, n: nat) {
    (forall j | 0 <= j < |named| :: 0 < named[j] <= n) && forall j | 0 < j < |named| :: named[j - 1] < named[j]
  }

  lemma Named(b: seq<Byte>, n: nat, named: seq<nat>)
    requires |b| == 8 + 4 * |named| && Entries(b, |named|) == named
    ensures (forall j | 0 <= j < |named| :: EntryFits(b, j, n)) <==> Naming(named, n)
  {
    hide FromBE, EntryFits;
    if Naming(named, n) {
      forall j | 0 <= j < |named|
        ensures EntryFits(b, j, n)
      {
        EntryIs(b, n, named, j);
      }
    }
    if forall j | 0 <= j < |named| :: EntryFits(b, j, n) {
      forall j | 0 <= j < |named|
        ensures 0 < named[j] <= n && (j > 0 ==> named[j - 1] < named[j])
      {
        EntryIs(b, n, named, j);
      }
    }
  }

  lemma EntryIs(b: seq<Byte>, n: nat, named: seq<nat>, j: nat)
    requires |b| == 8 + 4 * |named| && Entries(b, |named|) == named && j < |named|
    ensures EntryFits(b, j, n) <==> (if j == 0 then 0 else named[j - 1]) < named[j] <= n
  {
    hide FromBE;
    assert Entries(b, |named|)[j] == Word(b, 2 + j);
    if j > 0 {
      assert Entries(b, |named|)[j - 1] == Word(b, 1 + j);
    }
  }

  // ---- chunk offsets

  function LongsText(vs: seq<nat>): seq<Byte> {
    if vs == [] then [] else LongsText(vs[..|vs| - 1]) + BE(8, vs[|vs| - 1])
  }

  ghost predicate IsChunkBox(b: seq<Byte>, wide: bool, chunks: seq<nat>) {
    |chunks| <= MaxU32 &&
    if wide then (forall i | 0 <= i < |chunks| :: chunks[i] <= MaxU64) && b == WordsText([0, |chunks|]) + LongsText(chunks)
    else Words32(chunks) && b == WordsText([0, |chunks|] + chunks)
  }

  function Long(b: seq<Byte>, i: nat): nat
    requires 8 * i + 8 <= |b|
  {
    FromBE(b[8 * i..8 * i + 8])
  }

  ghost predicate ReadsLongs(b: seq<Byte>, vs: seq<nat>) {
    |b| == 8 * |vs| && forall i | 0 <= i < |vs| :: Long(b, i) == vs[i]
  }

  lemma LongSlices(b: seq<Byte>, n: nat)
    requires |b| == 8 * n + 8
    ensures forall i | 0 <= i < n :: Long(b, i) == Long(b[..8 * n], i)
    ensures Long(b, n) == FromBE(b[8 * n..]) && |b[8 * n..]| == 8
  {
    hide FromBE;
    forall i | 0 <= i < n
      ensures Long(b, i) == Long(b[..8 * n], i)
    {
      assert b[8 * i..8 * i + 8] == b[..8 * n][8 * i..8 * i + 8];
    }
    assert b[8 * n..8 * n + 8] == b[8 * n..];
  }

  lemma {:induction false} LongsExactly(b: seq<Byte>, vs: seq<nat>)
    requires forall i | 0 <= i < |vs| :: vs[i] <= MaxU64
    ensures b == LongsText(vs) <==> ReadsLongs(b, vs)
  {
    hide BE, FromBE, Long, LongsText;
    LongsLength(vs);
    if vs == [] {
      assert LongsText(vs) == [] by { NoLongs(); }
    } else {
      var n := |vs| - 1;
      if |b| == 8 * |vs| {
        var init, last := b[..8 * n], b[8 * n..];
        LongsExactly(init, vs[..n]);
        LongSlices(b, n);
        LongsLast(init, last, vs);
        assert b == init + last;
        assert ReadsLongs(b, vs) <==> ReadsLongs(init, vs[..n]) && Long(b, n) == vs[n];
      }
    }
  }

  lemma NoLongs()
    ensures LongsText([]) == []
  {
  }

  lemma LongsLast(init: seq<Byte>, last: seq<Byte>, vs: seq<nat>)
    requires vs != [] && |init| == 8 * (|vs| - 1) && |last| == 8 && vs[|vs| - 1] <= MaxU64
    ensures init + last == LongsText(vs) <==> init == LongsText(vs[..|vs| - 1]) && FromBE(last) == vs[|vs| - 1]
  {
    hide BE, FromBE;
    var n := |vs| - 1;
    LongsLength(vs[..n]);
    Pow256Values();
    ReadBackBE(8, vs[n]);
    RewriteBE(last);
    var text, word := LongsText(vs[..n]), BE(8, vs[n]);
    if init + last == text + word {
      assert init == (init + last)[..8 * n] && last == (init + last)[8 * n..];
      assert text == (text + word)[..8 * n] && word == (text + word)[8 * n..];
    }
  }

  lemma {:induction false} LongsLength(vs: seq<nat>)
    ensures |LongsText(vs)| == 8 * |vs|
  {
    hide BE;
    if vs != [] {
      LongsLength(vs[..|vs| - 1]);
      assert |BE(8, vs[|vs| - 1])| == 8;
    }
  }

  lemma ChunksExactly(b: seq<Byte>, wide: bool, chunks: seq<nat>)
    ensures ChunkTable(b, wide) == Some(chunks) <==> IsChunkBox(b, wide, chunks)
  {
    hide FromBE, WordsText, LongsText;
    if wide {
      WideExactly(b, chunks);
    } else {
      if ChunkTable(b, wide) == Some(chunks) {
        EntriesFit32(b);
        EntriesExactly(b, chunks);
      }
      if IsChunkBox(b, wide, chunks) {
        EntriesExactly(b, chunks);
      }
    }
  }

  lemma WideExactly(b: seq<Byte>, chunks: seq<nat>)
    ensures ChunkTable(b, true) == Some(chunks) <==> IsChunkBox(b, true, chunks)
  {
    hide FromBE, WordsText, LongsText, Long;
    WordsLength([0, |chunks|]);
    LongsLength(chunks);
    if |b| == 8 + 8 * |chunks| {
      var head, tail := b[..8], b[8..];
      assert b == head + tail;
      WideParts(b, head, tail, chunks);
      if |chunks| <= MaxU32 {
        TwoExactly(head, 0, |chunks|, []);
        assert [0, |chunks|] + [] == [0, |chunks|];
      }
      if forall i | 0 <= i < |chunks| :: chunks[i] <= MaxU64 {
        LongsExactly(tail, chunks);
      }
      if IsChunkBox(b, true, chunks) {
        assert head == WordsText([0, |chunks|]) && tail == LongsText(chunks);
      }
    }
  }

  lemma WideParts(b: seq<Byte>, head: seq<Byte>, tail: seq<Byte>, chunks: seq<nat>)
    requires |b| == 8 + 8 * |chunks| && head == b[..8] && tail == b[8..]
    ensures Word(head, 0) == Word(b, 0) && Word(head, 1) == Word(b, 1) && Word(b, 1) <= MaxU32
    ensures ChunkTable(b, true) == Some(chunks) <==> Word(b, 0) == 0 && Word(b, 1) == |chunks| && ReadsLongs(tail, chunks)
    ensures ReadsLongs(tail, chunks) ==> forall i | 0 <= i < |chunks| :: chunks[i] <= MaxU64
  {
    hide FromBE;
    WordFits(b, 1);
    assert head[0..4] == b[0..4] && head[4..8] == b[4..8];
    forall j | 0 <= j < |chunks|
      ensures FromBE(b[8 + 8 * j..16 + 8 * j]) == Long(tail, j) <= MaxU64
    {
      assert b[8 + 8 * j..16 + 8 * j] == tail[8 * j..8 * j + 8];
      FromBEBound(tail[8 * j..8 * j + 8]);
      Pow256Values();
    }
    if ChunkTable(b, true) == Some(chunks) {
      forall j | 0 <= j < |chunks|
        ensures chunks[j] == Long(tail, j)
      {
        assert chunks[j] == FromBE(b[8 + 8 * j..16 + 8 * j]);
      }
    }
    if Word(b, 0) == 0 && Word(b, 1) == |chunks| && ReadsLongs(tail, chunks) {
      assert ChunkTable(b, true).value == chunks;
    }
  }

  // ---- chunk mappings

  function MappingWords(entries: seq<Mapping>): (ws: seq<nat>)
    ensures |ws| == 3 * |entries|
  {
    if entries == [] then []
    else
      var n := |entries| - 1;
      MappingWords(entries[..n]) + [entries[n].first, entries[n].count, 1]
  }

  /** Entries from chunk 1 on, each further on than the one before, that name only chunks there are. */
  ghost predicate IsStsc(b: seq<Byte>, chunks: nat, entries: seq<Mapping>) {
    |entries| <= MaxU32 && (forall j | 0 <= j < |entries| :: entries[j].first <= MaxU32 && entries[j].count <= MaxU32) &&
    b == WordsText([0, |entries|] + MappingWords(entries)) && (chunks > 0 ==> entries != []) && Mapped(entries, chunks)
  }

  ghost predicate Mapped(entries: seq<Mapping>, chunks: nat) {
    forall j | 0 <= j < |entries| :: MappedAt(entries, chunks, j)
  }

  ghost predicate MappedAt(entries: seq<Mapping>, chunks: nat, j: nat)
    requires j < |entries|
  {
    (if j == 0 then entries[0].first == 1 else entries[j - 1].first < entries[j].first) && entries[j].first <= chunks &&
    0 < entries[j].count
  }

  /** The entries stand behind their number, each with a description index of 1. */
  ghost predicate MappingsStand(b: seq<Byte>, entries: seq<Mapping>) {
    |b| >= 8 + 12 * |entries| &&
    forall j | 0 <= j < |entries| :: entries[j] == Mapping(Word(b, 2 + 3 * j), Word(b, 3 + 3 * j)) && Word(b, 4 + 3 * j) == 1
  }

  lemma {:induction false} MappingWordsStand(b: seq<Byte>, entries: seq<Mapping>)
    requires |b| >= 8 + 12 * |entries|
    ensures Behind(b, 2, MappingWords(entries)) <==> MappingsStand(b, entries)
  {
    hide Word, Behind, MappingsStand;
    if entries == [] {
      NoMappings(b);
    } else {
      var n := |entries| - 1;
      MappingWordsStand(b, entries[..n]);
      LastThree(b, MappingWords(entries[..n]), entries[n].first, entries[n].count, 1);
      LastMapping(b, entries);
    }
  }

  lemma NoMappings(b: seq<Byte>)
    requires |b| >= 8
    ensures Behind(b, 2, []) && MappingsStand(b, [])
  {
  }

  lemma LastMapping(b: seq<Byte>, entries: seq<Mapping>)
    requires entries != [] && |b| >= 8 + 12 * |entries|
    ensures var n := |entries| - 1;
      MappingsStand(b, entries) <==>
        MappingsStand(b, entries[..n]) && entries[n] == Mapping(Word(b, 2 + 3 * n), Word(b, 3 + 3 * n)) &&
        Word(b, 4 + 3 * n) == 1
  {
    hide Word;
    var n := |entries| - 1;
    assert forall j | 0 <= j < n :: entries[..n][j] == entries[j];
  }

  lemma LastThree(b: seq<Byte>, before: seq<nat>, x: nat, y: nat, z: nat)
    requires |b| >= 20 + 4 * |before|
    ensures var n := |before|;
      Behind(b, 2, before + [x, y, z]) <==>
        Behind(b, 2, before) && x == Word(b, 2 + n) && y == Word(b, 3 + n) && z == Word(b, 4 + n)
  {
    hide Word;
    var n, all := |before|, before + [x, y, z];
    assert all[n] == x && all[n + 1] == y && all[n + 2] == z && forall i | 0 <= i < n :: all[i] == before[i];
    if Behind(b, 2, all) {
      assert all[n] == Word(b, 2 + n) && all[n + 1] == Word(b, 2 + (n + 1)) && all[n + 2] == Word(b, 2 + (n + 2));
    }
    if Behind(b, 2, before) && x == Word(b, 2 + n) && y == Word(b, 3 + n) && z == Word(b, 4 + n) {
      forall i | 0 <= i < n + 3
        ensures all[i] == Word(b, 2 + i)
      {
        if i < n {
          assert before[i] == Word(b, 2 + i);
        }
      }
    }
  }

  lemma FitIs(b: seq<Byte>, chunks: nat, entries: seq<Mapping>, j: nat)
    requires |b| == 8 + 12 * |entries| && Mappings(b, |entries|) == entries && j < |entries|
    ensures entries[j] == Mapping(Word(b, 2 + 3 * j), Word(b, 3 + 3 * j))
    ensures MappingFits(b, j, chunks) <==>
      (if j == 0 then entries[0].first == 1 else entries[j - 1].first < entries[j].first) && entries[j].first <= chunks &&
      0 < entries[j].count && Word(b, 4 + 3 * j) == 1
  {
    hide FromBE;
    assert entries[j] == Mappings(b, |entries|)[j];
    if j > 0 {
      assert entries[j - 1] == Mappings(b, |entries|)[j - 1];
      assert 2 + 3 * (j - 1) == 3 * j - 1;
    }
  }

  lemma MappingsAre(b: seq<Byte>, entries: seq<Mapping>)
    requires |b| == 8 + 12 * |entries| && MappingsStand(b, entries)
    ensures Mappings(b, |entries|) == entries
  {
    hide FromBE;
  }

  lemma EntriesFit(b: seq<Byte>, chunks: nat, entries: seq<Mapping>)
    requires |b| == 8 + 12 * |entries|
    ensures Mappings(b, |entries|) == entries && (forall j | 0 <= j < |entries| :: MappingFits(b, j, chunks)) <==>
      MappingsStand(b, entries) && Mapped(entries, chunks)
  {
    hide FromBE, MappingFits, Mappings;
    if Mappings(b, |entries|) == entries && forall j | 0 <= j < |entries| :: MappingFits(b, j, chunks) {
      forall j | 0 <= j < |entries|
        ensures entries[j] == Mapping(Word(b, 2 + 3 * j), Word(b, 3 + 3 * j)) && Word(b, 4 + 3 * j) == 1
        ensures MappedAt(entries, chunks, j)
      {
        assert MappingFits(b, j, chunks);
        FitIs(b, chunks, entries, j);
      }
    }
    if MappingsStand(b, entries) && Mapped(entries, chunks) {
      MappingsAre(b, entries);
      forall j | 0 <= j < |entries|
        ensures MappingFits(b, j, chunks)
      {
        assert MappedAt(entries, chunks, j);
        FitIs(b, chunks, entries, j);
      }
    }
  }

  lemma StscExactly(b: seq<Byte>, entries: seq<Mapping>)
    requires |entries| <= MaxU32 && forall j | 0 <= j < |entries| :: entries[j].first <= MaxU32 && entries[j].count <= MaxU32
    ensures b == WordsText([0, |entries|] + MappingWords(entries)) <==>
      |b| == 8 + 12 * |entries| && Word(b, 0) == 0 && Word(b, 1) == |entries| && MappingsStand(b, entries)
  {
    hide FromBE, WordsText, MappingsStand;
    MappingWordsFit(entries);
    TwoExactly(b, 0, |entries|, MappingWords(entries));
    if |b| == 8 + 12 * |entries| {
      MappingWordsStand(b, entries);
    }
  }

  lemma {:induction false} MappingWordsFit(entries: seq<Mapping>)
    requires forall j | 0 <= j < |entries| :: entries[j].first <= MaxU32 && entries[j].count <= MaxU32
    ensures Words32(MappingWords(entries))
  {
    if entries != [] {
      MappingWordsFit(entries[..|entries| - 1]);
    }
  }

  lemma MappingsFit32(b: seq<Byte>, entries: seq<Mapping>)
    requires MappingsStand(b, entries)
    ensures forall j | 0 <= j < |entries| :: entries[j].first <= MaxU32 && entries[j].count <= MaxU32
  {
    hide FromBE;
    forall j | 0 <= j < |entries|
      ensures entries[j].first <= MaxU32 && entries[j].count <= MaxU32
    {
      WordFits(b, 2 + 3 * j);
      WordFits(b, 3 + 3 * j);
    }
  }

  lemma MappingsExactly(b: seq<Byte>, chunks: nat, entries: seq<Mapping>)
    ensures MappingTable(b, chunks) == Some(entries) <==> IsStsc(b, chunks, entries)
  {
    hide FromBE, WordsText, MappingFits, MappingsStand, MappingWords;
    if MappingTable(b, chunks) == Some(entries) {
      WordFits(b, 1);
      EntriesFit(b, chunks, entries);
      MappingsFit32(b, entries);
      StscExactly(b, entries);
    }
    if IsStsc(b, chunks, entries) {
      StscExactly(b, entries);
      EntriesFit(b, chunks, entries);
    }
  }

  // ---- all tables of a track

  /** The boxes are this table set, written; 32-bit chunk offsets are preferred to 64-bit ones. */
  ghost predicate AreTables(boxes: Boxes, t: Tables) {
    boxes.stsz.Some? && boxes.stts.Some? && boxes.stsc.Some? && (boxes.stco.Some? || boxes.co64.Some?) &&
    (exists fixed: nat :: IsStsz(boxes.stsz.value, fixed, t.sizes)) &&
    |t.durations| == |t.sizes| &&
    (exists version: nat, runs :: IsTiming(boxes.stts.value, false, version, runs, t.durations)) &&
    |t.shifts| == |t.sizes| &&
    (if boxes.ctts.None? then forall i | 0 <= i < |t.shifts| :: t.shifts[i] == 0
     else exists version: nat, runs :: IsTiming(boxes.ctts.value, true, version, runs, t.shifts)) &&
    (if boxes.stss.None? then |t.sync| == |t.sizes| && forall i | 0 <= i < |t.sync| :: t.sync[i]
     else exists named :: IsStss(boxes.stss.value, |t.sizes|, named, t.sync)) &&
    (if boxes.stco.Some? then IsChunkBox(boxes.stco.value, false, t.chunks)
     else IsChunkBox(boxes.co64.value, true, t.chunks)) &&
    IsStsc(boxes.stsc.value, |t.chunks|, t.entries)
  }

  lemma DurationsAre(b: seq<Byte>, n: nat, durations: seq<nat>)
    ensures TimingTable(b, n, false) == Some(durations) <==>
      TimingTable(b, n, false).Some? && Durations(TimingTable(b, n, false).value) == durations
  {
    hide Word;
    if TimingTable(b, n, false).Some? {
      UnsignedRuns(b, Word(b, 1));
      var values := TimingTable(b, n, false).value;
      assert forall i | 0 <= i < |values| :: values[i] == Durations(values)[i];
      if Durations(values) == durations {
        assert values == durations;
      }
    }
  }

  /** A table set is read out of boxes exactly when they are that table set, and there is room for its samples. */
  lemma TablesExactly(boxes: Boxes, room: nat, t: Tables)
    ensures TablesOf(boxes, room) == Some(t) <==> AreTables(boxes, t) && |t.sizes| <= room
  {
    hide SizeTable, TimingTable, SyncTable, ChunkTable, MappingTable, Durations, IsStsz, IsTiming, IsStss, IsChunkBox, IsStsc;
    if boxes.Complete() {
      SizesExactly(boxes.stsz.value, room, t.sizes);
      DurationsAre(boxes.stts.value, |t.sizes|, t.durations);
      TimingExactly(boxes.stts.value, |t.sizes|, false, t.durations);
      if boxes.ctts.Some? {
        TimingExactly(boxes.ctts.value, |t.sizes|, true, t.shifts);
      }
      SyncExactly(boxes.stss, |t.sizes|, t.sync);
      ChunksExactly(boxes.ChunkBox(), boxes.stco.None?, t.chunks);
      MappingsExactly(boxes.stsc.value, |t.chunks|, t.entries);
      PartsOf(boxes, room, t);
    }
  }

  lemma PartsOf(boxes: Boxes, room: nat, t: Tables)
    requires boxes.Complete()
    ensures TablesOf(boxes, room) == Some(t) <==>
      SizeTable(boxes.stsz.value, room) == Some(t.sizes) &&
      TimingTable(boxes.stts.value, |t.sizes|, false).Some? &&
      Durations(TimingTable(boxes.stts.value, |t.sizes|, false).value) == t.durations &&
      (if boxes.ctts.None? then t.shifts == Repeat(0, |t.sizes|)
       else TimingTable(boxes.ctts.value, |t.sizes|, true) == Some(t.shifts)) &&
      SyncTable(boxes.stss, |t.sizes|) == Some(t.sync) && ChunkTable(boxes.ChunkBox(), boxes.stco.None?) == Some(t.chunks) &&
      MappingTable(boxes.stsc.value, |t.chunks|) == Some(t.entries)
  {
    hide SizeTable, TimingTable, SyncTable, ChunkTable, MappingTable, Durations;
  }
}
