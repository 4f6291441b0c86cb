/**
 * `rebase_cmaf_timestamps` as the source runs it: byte edits at absolute
 * offsets of one growing vector, then the extra bytes inserted from the back.
 */
module CmafRebaseInPlace {
  import opened Bytes
  import opened Mp4Boxes
  import opened CmafRebase
  import opened CmafRebaseTree
  import opened CmafRebaseOffsets

  // ---- edits inside edits

  lemma PutInside(out: seq<Byte>, a: nat, x: seq<Byte>, p: nat, y: seq<Byte>)
    requires a + |x| <= |out| && p + |y| <= |x|
    ensures Put(Put(out, a, x), a + p, y) == Put(out, a, Put(x, p, y))
  {
  }

  lemma PutMiddle(a: seq<Byte>, b: seq<Byte>, c: seq<Byte>, y: seq<Byte>)
    requires |b| == |y|
    ensures Put(a + b + c, |a|, y) == a + y + c
  {
  }

  lemma PutSame(out: seq<Byte>, a: nat, x: seq<Byte>)
    requires a + |x| <= |out| && out[a..a + |x|] == x
    ensures Put(out, a, x) == out
  {
    assert out == out[..a] + out[a..a + |x|] + out[a + |x|..];
  }

  lemma SliceOfSlice(s: seq<Byte>, a: nat, b: nat, i: nat, j: nat)
    requires a <= b <= |s| && i <= j <= b - a
    ensures s[a..b][i..j] == s[a + i..a + j]
  {
    forall k | 0 <= k < j - i
      ensures s[a..b][i..j][k] == s[a + i..a + j][k]
    {
      assert s[a..b][i + k] == s[a + i + k];
    }
  }

  // ---- one box

  /** The decode time edit of the box at `at`. */
  method RebaseTime(out0: seq<Byte>, at: nat, b: Node, delta: nat) returns (edit: TimeEdit, out: seq<Byte>)
    requires b.head <= |b.all| && at + |b.all| <= |out0| && out0[at..at + |b.all|] == b.all
    ensures edit == EditTime(b, delta)
    ensures out == if edit.Keep? then Put(out0, at, edit.bytes) else out0
  {
    hide BE, FromBE, Put;
    out := out0;
    var size := |b.all| - b.head;
    var field := at + b.head + 4;
    ghost var body := b.all[b.head..];
    if size < 4 {
      return Refuse, out;
    }
    var version := out[at + b.head];
    assert version == out0[at..at + |b.all|][b.head] == body[0];
    if version == 1 && size >= 12 {
      BodySlice(out0, at, b, 4, 12);
      var bytes := BE(8, (FromBE(out[field..field + 8]) + delta) % TwoTo64);
      edit := Keep(Put(b.all, b.head + 4, bytes));
      out := Put(out, field, bytes);
      PutOfSlice(out0, at, b.all, b.head + 4, bytes);
    } else if version == 0 && size >= 8 {
      BodySlice(out0, at, b, 4, 8);
      var value := (FromBE(out[field..field + 4]) + delta) % TwoTo64;
      if value <= MaxU32 {
        edit := Keep(Put(b.all, b.head + 4, BE(4, value)));
        out := Put(out, field, BE(4, value));
        PutOfSlice(out0, at, b.all, b.head + 4, BE(4, value));
      } else if b.head == 8 && size == 8 {
        edit := Widen(value);
      } else {
        edit := Refuse;
      }
    } else {
      edit := Refuse;
    }
  }

  lemma BodySlice(out: seq<Byte>, at: nat, b: Node, i: nat, j: nat)
    requires b.head <= |b.all| && at + |b.all| <= |out| && out[at..at + |b.all|] == b.all && i <= j <= |b.all| - b.head
    ensures out[at + b.head + i..at + b.head + j] == b.all[b.head..][i..j]
  {
    SliceOfSlice(out, at, at + |b.all|, b.head + i, b.head + j);
    SliceOfDrop(b.all, b.head, i, j);
  }

  /** A write into a box is a write of the edited box. */
  lemma PutOfSlice(out: seq<Byte>, at: nat, all: seq<Byte>, p: nat, bytes: seq<Byte>)
    requires at + |all| <= |out| && out[at..at + |all|] == all && p + |bytes| <= |all|
    ensures Put(out, at + p, bytes) == Put(out, at, Put(all, p, bytes))
  {
    PutSame(out, at, all);
    PutInside(out, at, all, p, bytes);
  }

  method AdjustTrun(out0: seq<Byte>, partAt: nat, c: Node, part: seq<Byte>, at: nat, ws: seq<Widening>)
    returns (ok: bool, out: seq<Byte>)
    requires c.head <= |c.all| == |part| && partAt + |part| <= |out0| && out0[partAt..partAt + |part|] == part
    ensures ok <==> EditTrun(c, part, at, ws).Some?
    ensures ok ==> out == Put(out0, partAt, EditTrun(c, part, at, ws).value)
  {
    hide BE, FromBE, Put, HasBit, CountBefore;
    out := out0;
    var size := |part| - c.head;
    var b := Node(c.name, c.head, part, []);
    if size < 8 {
      return false, out;
    }
    BodySlice(out0, partAt, b, 1, 4);
    var flags := FromBE(out[partAt + c.head + 1..partAt + c.head + 4]);
    if !HasBit(flags, 0) {
      PutSame(out0, partAt, part);
      return true, out;
    }
    if size < 12 {
      return false, out;
    }
    var field := partAt + c.head + 8;
    BodySlice(out0, partAt, b, 8, 12);
    var offset := Signed32(FromBE(out[field..field + 4]));
    var target := at + offset;
    if target < 0 {
      return false, out;
    }
    var shifted := offset + 4 * CountBefore(ws, target);
    if shifted > 0x7FFF_FFFF {
      return false, out;
    }
    out := Put(out, field, BE(4, Unsigned32(shifted)));
    PutOfSlice(out0, partAt, part, c.head + 8, BE(4, Unsigned32(shifted)));
    return true, out;
  }

  lemma {:induction false} EntriesRefused(entries: seq<Byte>, width: nat, i: nat, n: nat, at: nat, ws: seq<Widening>)
    requires width > 0 && 0 <= width * i && width * i <= width * n <= |entries| && i <= n
    requires ShiftEntries(entries, width, i, at, ws).None?
    ensures ShiftEntries(entries, width, n, at, ws).None?
    decreases n
  {
    if i < n {
      Products(width, i, n);
      EntriesRefused(entries, width, i, n - 1, at, ws);
    }
  }

  lemma Products(width: nat, i: nat, n: nat)
    requires i < n
    ensures width * i <= width * (n - 1) <= width * n && width * n == width * (n - 1) + width
  {
  }

  /** One step of the entry loop: the shifted bytes so far grow by one entry. */
  lemma EntryStep(entries: seq<Byte>, width: nat, i: nat, n: nat, at: nat, ws: seq<Widening>)
    requires width > 0 && i < n && 0 <= width * n <= |entries|
    ensures 0 <= width * i && width * i + width <= width * n && width * (i + 1) == width * i + width
    ensures var shifted := ShiftEntry(FromBE(entries[width * i..width * i + width]), width, at, ws);
      ShiftEntries(entries, width, i, at, ws).Some? ==>
        ShiftEntries(entries, width, i + 1, at, ws) ==
          if shifted.None? then None else Some(ShiftEntries(entries, width, i, at, ws).value + BE(width, shifted.value))
  {
    Products(width, i, i + 1);
    if i + 1 < n {
      Products(width, i + 1, n);
    }
  }

  method AdjustSaio(out0: seq<Byte>, partAt: nat, c: Node, part: seq<Byte>, at: nat, ws: seq<Widening>)
    returns (ok: bool, out: seq<Byte>)
    requires c.head <= |c.all| == |part| && partAt + |part| <= |out0| && out0[partAt..partAt + |part|] == part
    ensures ok <==> EditSaio(c, part, at, ws).Some?
    ensures ok ==> out == Put(out0, partAt, EditSaio(c, part, at, ws).value)
  {
    hide BE, FromBE, Put, HasBit, CountBefore, ShiftEntries, ShiftEntry, SaioLayout, EditSaio;
    out := out0;
    var layout := ReadLayout(out0, partAt, c, part);
    SaioByEntries(c, part, at, ws);
    if layout.None? {
      return false, out;
    }
    var (start, width, count) := layout.value;
    ghost var entries := part[c.head + start..];
    ghost var done: seq<Byte> := [];
    var base := partAt + c.head + start;
    EntriesBegin(entries, width, at, ws);
    PutNothing(out0, base);
    var cursor := base;
    for i := 0 to count
      invariant cursor == base + width * i && ShiftEntries(entries, width, i, at, ws) == Some(done) && |done| == width * i
      invariant 0 <= width * i <= width * count && |out| == |out0| && out == Put(out0, base, done)
    {
      EntryStep(entries, width, i, count, at, ws);
      EntryBytes(out0, partAt, part, c.head + start, done, width);
      var shifted := ShiftEntry(FromBE(out[cursor..cursor + width]), width, at, ws);
      if shifted.None? {
        EntriesRefused(entries, width, i + 1, count, at, ws);
        return false, out;
      }
      PutNext(out0, base, done, BE(width, shifted.value));
      out := Put(out, cursor, BE(width, shifted.value));
      done := done + BE(width, shifted.value);
      cursor := cursor + width;
    }
    PutOfSlice(out0, partAt, part, c.head + start, done);
    return true, out;
  }

  /** The edited box is the box with its entries shifted in place. */
  lemma SaioByEntries(c: Node, part: seq<Byte>, at: nat, ws: seq<Widening>)
    requires c.head <= |c.all| == |part|
    ensures match SaioLayout(part[c.head..])
      case None => EditSaio(c, part, at, ws).None?
      case Some((start, width, count)) =>
        c.head + start <= |part| && (width == 4 || width == 8) && width * count <= |part| - c.head - start &&
        var shifted := ShiftEntries(part[c.head + start..], width, count, at, ws);
        if shifted.None? then EditSaio(c, part, at, ws).None?
        else
          c.head + start + |shifted.value| <= |part| &&
          EditSaio(c, part, at, ws) == Some(Put(part, c.head + start, shifted.value))
  {
    hide FromBE, HasBit, ShiftEntries, SaioLayout;
    if SaioLayout(part[c.head..]).Some? {
      SaioFits(part[c.head..]);
    }
  }

  lemma EntriesBegin(entries: seq<Byte>, width: nat, at: nat, ws: seq<Widening>)
    requires width > 0
    ensures ShiftEntries(entries, width, 0, at, ws) == Some([]) && width * 0 == 0
  {
  }

  lemma PutNothing(out: seq<Byte>, at: nat)
    requires at <= |out|
    ensures Put(out, at, []) == out
  {
  }

  /** Entries after the ones rewritten are still as parsed. */
  lemma EntryBytes(out: seq<Byte>, partAt: nat, part: seq<Byte>, start: nat, done: seq<Byte>, width: nat)
    requires partAt + |part| <= |out| && out[partAt..partAt + |part|] == part && start + |done| + width <= |part|
    ensures Put(out, partAt + start, done)[partAt + start + |done|..partAt + start + |done| + width] ==
      part[start..][|done|..|done| + width]
  {
    var p := partAt + start + |done|;
    assert Put(out, partAt + start, done)[p..p + width] == out[p..p + width];
    SliceOfSlice(out, partAt, partAt + |part|, start + |done|, start + |done| + width);
    SliceOfDrop(part, start, |done|, |done| + width);
  }

  method ReadLayout(out: seq<Byte>, partAt: nat, c: Node, part: seq<Byte>) returns (layout: Option<(nat, nat, nat)>)
    requires c.head <= |c.all| == |part| && partAt + |part| <= |out| && out[partAt..partAt + |part|] == part
    ensures layout == SaioLayout(part[c.head..])
  {
    hide FromBE, HasBit;
    var size := |part| - c.head;
    var body := partAt + c.head;
    var b := Node(c.name, c.head, part, []);
    if size < 8 {
      return None;
    }
    BodySlice(out, partAt, b, 0, 1);
    assert out[body] == out[body..body + 1][0] == part[c.head..][0..1][0];
    var version := out[body];
    var cursor := 4;
    BodySlice(out, partAt, b, 1, 4);
    if HasBit(FromBE(out[body + 1..body + 4]), 0) {
      cursor := cursor + 8;
    }
    if cursor + 4 > size {
      return None;
    }
    BodySlice(out, partAt, b, cursor, cursor + 4);
    var count := FromBE(out[body + cursor..body + cursor + 4]);
    cursor := cursor + 4;
    var width := if version == 0 then 4 else 8;
    if (size - cursor) / width < count {
      return None;
    }
    return Some((cursor, width, count));
  }

  // ---- a fragment's decode times

  lemma {:induction false} KidsRefused(t: Node, i: nat, n: nat, at: nat, delta: nat, ws: seq<Widening>)
    requires Holds(t) && i <= n <= |t.kids| && KidsBytes(t, i, at, delta, ws).None?
    ensures KidsBytes(t, n, at, delta, ws).None?
    decreases n
  {
    hide KidBytes, Flat;
    if i < n {
      KidsRefused(t, i, n - 1, at, delta, ws);
    }
  }

  lemma {:induction false} WideningsRefused(m: Node, i: nat, n: nat, at: nat, delta: nat)
    requires Fragment(m) && i <= n <= |m.kids| && Widenings(m, i, at, delta).None?
    ensures Widenings(m, n, at, delta).None?
    decreases n
  {
    hide EditTraf, Flat;
    if i < n {
      WideningsRefused(m, i, n - 1, at, delta);
    }
  }

  lemma {:induction false} MoofKidsRefused(m: Node, i: nat, n: nat, at: nat, delta: nat, ws: seq<Widening>)
    requires Fragment(m) && i <= n <= |m.kids| && MoofKids(m, i, at, delta, ws).None?
    ensures MoofKids(m, n, at, delta, ws).None?
    decreases n
  {
    hide TrafBytes, Flat;
    if i < n {
      MoofKidsRefused(m, i, n - 1, at, delta, ws);
    }
  }

  lemma {:induction false} TopRefused(nodes: seq<Node>, i: nat, n: nat, delta: nat)
    requires Fragments(nodes) && i <= n <= |nodes| && TopBytes(nodes, i, delta).None?
    ensures TopBytes(nodes, n, delta).None?
    decreases n
  {
    hide MoofBytes, Flat;
    if i < n {
      TopRefused(nodes, i, n - 1, delta);
    }
  }

  lemma TimedKidStep(t: Node, i: nat, at: nat, delta: nat)
    requires Holds(t) && 0 < i <= |t.kids| && KidsBytes(t, i - 1, at, delta, []).Some?
    ensures KidsBytes(t, i, at, delta, []) == Some(KidsBytes(t, i - 1, at, delta, []).value + TimedKid(t, i - 1, delta))
  {
    hide Flat, TimedKid;
  }

  /** Without widenings only the decode time box of a traf changes. */
  lemma {:induction false} TimedKids(t: Node, i: nat, at: nat, delta: nat)
    requires Holds(t) && i <= |t.kids|
    ensures var k, edit := IndexOf(t.kids, "tfdt"), EditTraf(t, delta);
      KidsBytes(t, i, at, delta, []).Some? &&
      (edit.Keep? && k < i ==>
         |Flat(t.kids[..k])| + |edit.bytes| <= |Flat(t.kids[..i])| && |edit.bytes| == |t.kids[k].all| &&
         KidsBytes(t, i, at, delta, []).value == Put(Flat(t.kids[..i]), |Flat(t.kids[..k])|, edit.bytes)) &&
      (!(edit.Keep? && k < i) ==> KidsBytes(t, i, at, delta, []).value == Flat(t.kids[..i]))
    decreases i
  {
    hide EditTime, Flat, Put, KidsBytes;
    var k, edit := IndexOf(t.kids, "tfdt"), EditTraf(t, delta);
    if i == 0 {
      NoKids(t, at, delta);
    } else {
      TimedKids(t, i - 1, at, delta);
      TimedKidStep(t, i, at, delta);
      FlatStep(t.kids, i - 1);
      var before, last := Flat(t.kids[..i - 1]), t.kids[i - 1].all;
      if edit.Keep? && k == i - 1 {
        TimeKeepsHead(t.kids[k], delta);
        assert before + last + [] == before + last && before + edit.bytes + [] == before + edit.bytes;
        PutMiddle(before, last, [], edit.bytes);
      } else if edit.Keep? && k < i - 1 {
        PutThenMore(before, |Flat(t.kids[..k])|, edit.bytes, last);
      }
    }
  }

  lemma NoKids(t: Node, at: nat, delta: nat)
    requires Holds(t)
    ensures Flat(t.kids[..0]) == [] && KidsBytes(t, 0, at, delta, []) == Some([])
  {
  }

  lemma PutThenMore(a: seq<Byte>, p: nat, y: seq<Byte>, more: seq<Byte>)
    requires p + |y| <= |a|
    ensures Put(a, p, y) + more == Put(a + more, p, y)
  {
  }

  lemma PutBehind(a: seq<Byte>, b: seq<Byte>, p: nat, y: seq<Byte>)
    requires p + |y| <= |b|
    ensures Put(a + b, |a| + p, y) == a + Put(b, p, y)
  {
  }

  /** The timed traf is the parsed one with the decode time box overwritten. */
  lemma TimedTraf(t: Node, trafAt: nat, trafs: nat, at: nat, delta: nat)
    requires Built(t) && t.name == "traf" && Holds(t)
    ensures var k, edit := IndexOf(t.kids, "tfdt"), EditTraf(t, delta);
      TrafBytes(t, trafAt, trafs, at, delta, []).Some? &&
      (edit.Keep? ==>
         k < |t.kids| && |edit.bytes| == |t.kids[k].all| && KidAt(t, k) + |edit.bytes| <= |t.all| &&
         TrafBytes(t, trafAt, trafs, at, delta, []).value == Put(t.all, KidAt(t, k), edit.bytes)) &&
      (!edit.Keep? ==> TrafBytes(t, trafAt, trafs, at, delta, []).value == t.all)
  {
    hide Parse, Flat, Built, EditTime, KidsBytes, Put;
    var k, edit, n := IndexOf(t.kids, "tfdt"), EditTraf(t, delta), |t.kids|;
    var tail := BuiltHolds(t);
    assert t.kids[..n] == t.kids;
    TimedKids(t, n, at, delta);
    var head, flat := t.all[..t.head], Flat(t.kids);
    if edit.Keep? {
      var p := |Flat(t.kids[..k])|;
      PutThenMore(flat, p, edit.bytes, tail);
      PutBehind(head, flat + tail, p, edit.bytes);
      assert head + flat + tail == head + (flat + tail);
      assert head + Put(flat, p, edit.bytes) + tail == head + (Put(flat, p, edit.bytes) + tail);
    }
  }

  /** The children of a fragment from `j` on, as parsed. */
  lemma RestStep(m: Node, j: nat)
    requires Holds(m) && j < |m.kids| && m.all[m.head..m.head + |Flat(m.kids)|] == Flat(m.kids)
    ensures KidAt(m, j) + |m.kids[j].all| <= |m.all| && KidAt(m, j + 1) == KidAt(m, j) + |m.kids[j].all|
    ensures m.all[KidAt(m, j)..KidAt(m, j) + |m.kids[j].all|] == m.kids[j].all
  {
    hide Flat;
    FlatStep(m.kids, j);
    FlatGrows(m.kids, j + 1);
    CmafSlice(m, j);
  }

  lemma CmafSlice(m: Node, j: nat)
    requires Holds(m) && j < |m.kids| && m.all[m.head..m.head + |Flat(m.kids)|] == Flat(m.kids)
    ensures var p := |Flat(m.kids[..j])|;
      p + |m.kids[j].all| <= |Flat(m.kids)| && m.all[m.head + p..m.head + p + |m.kids[j].all|] == m.kids[j].all
  {
    hide Flat;
    var p := |Flat(m.kids[..j])|;
    FlatSlice(m.kids, j);
    SliceOfSlice(m.all, m.head, m.head + |Flat(m.kids)|, p, p + |m.kids[j].all|);
  }

  /** Later bytes of a partly rewritten range. */
  lemma LaterSlice(out: seq<Byte>, a: nat, x: seq<Byte>, from: nat, to: nat)
    requires a + |x| <= from <= to <= |out|
    ensures Put(out, a, x)[from..to] == out[from..to]
  {
  }

  /** The time edit of one traf, found through its first decode time box. */
  method RebaseTrafTime(out0: seq<Byte>, tAt: nat, t: Node, trafs: nat, at: nat, delta: nat)
    returns (edit: TimeEdit, out: seq<Byte>)
    requires Built(t) && t.name == "traf" && Holds(t) && tAt + |t.all| <= |out0| && out0[tAt..tAt + |t.all|] == t.all
    ensures edit == EditTraf(t, delta) && |out| == |out0|
    ensures !edit.Refuse? ==> TrafBytes(t, tAt, trafs, at, delta, []).Some?
    ensures !edit.Refuse? ==> out == Put(out0, tAt, TrafBytes(t, tAt, trafs, at, delta, []).value)
  {
    hide Parse, Flat, Built, EditTraf, EditTime, TrafBytes, Put;
    out := out0;
    HoldsHere(t);
    var k := IndexOf(t.kids, "tfdt");
    TimedTraf(t, tAt, trafs, at, delta);
    if k == |t.kids| {
      NoTime(t, delta);
      return Refuse, out;
    }
    EditTrafIs(t, k, delta);
    RestStep(t, k);
    SliceOfSlice(out, tAt, tAt + |t.all|, KidAt(t, k), KidAt(t, k) + |t.kids[k].all|);
    edit, out := RebaseTime(out0, tAt + KidAt(t, k), t.kids[k], delta);
    if edit.Keep? {
      PutOfSlice(out0, tAt, t.all, KidAt(t, k), edit.bytes);
    } else {
      PutSame(out0, tAt, t.all);
    }
  }

  lemma NoTime(t: Node, delta: nat)
    requires Holds(t) && IndexOf(t.kids, "tfdt") == |t.kids|
    ensures EditTraf(t, delta) == Refuse
  {
    hide Flat;
  }

  /** The time pass over one fragment: its decode times edited, the boxes to widen listed. */
  method RebaseMoofTimes(out0: seq<Byte>, m: Node, at: nat, delta: nat)
    returns (ok: bool, out: seq<Byte>, ws: seq<Widening>)
    requires Built(m) && m.name == "moof" && Fragment(m) && at + |m.all| <= |out0| && out0[at..at + |m.all|] == m.all
    ensures ok <==> Widenings(m, |m.kids|, at, delta).Some?
    ensures ok ==> Widenings(m, |m.kids|, at, delta) == Some(ws) && MoofKids(m, |m.kids|, at, delta, []).Some?
    ensures ok ==> at + m.head + |MoofKids(m, |m.kids|, at, delta, []).value| <= |out0|
    ensures ok ==> out == Put(out0, at + m.head, MoofKids(m, |m.kids|, at, delta, []).value)
  {
    hide Parse, Flat, Built, EditTraf, TrafBytes, TrafWidenings, Put, Widenings, MoofKids, CountTrafs, KidAt, Headed;
    out, ws := out0, [];
    KidsBuilt(m);
    HoldsHere(m);
    TimesBegin(m, at, delta);
    PutNothing(out0, at + m.head);
    ghost var done: seq<Byte> := [];
    for j := 0 to |m.kids|
      invariant Widenings(m, j, at, delta) == Some(ws) && MoofKids(m, j, at, delta, []) == Some(done)
      invariant |done| == KidAt(m, j) - m.head && at + KidAt(m, j) <= |out0| && |out| == |out0|
      invariant out == Put(out0, at + m.head, done)
    {
      var t, tAt := m.kids[j], at + KidAt(m, j);
      RestStep(m, j);
      SliceOfSlice(out0, at, at + |m.all|, KidAt(m, j), KidAt(m, j) + |t.all|);
      LaterSlice(out0, at + m.head, done, tAt, tAt + |t.all|);
      TimesStep(m, j, at, delta);
      ghost var last := t.all;
      if t.name == "traf" {
        var edit, next := RebaseTrafTime(out, tAt, t, CountTrafs(m.kids), at, delta);
        if edit.Refuse? {
          TimeRefused(m, j, at, delta);
          return false, out, ws;
        }
        if edit.Widen? {
          ws := ws + [Widening(tAt + KidAt(t, IndexOf(t.kids, "tfdt")), edit.value)];
        }
        last := TrafBytes(t, tAt, CountTrafs(m.kids), at, delta, []).value;
        out := next;
      } else {
        PutSame(out, tAt, t.all);
      }
      PutNext(out0, at + m.head, done, last);
      done := done + last;
    }
    return true, out, ws;
  }

  lemma HoldsHere(n: Node)
    requires Built(n) && IsContainer(n.name)
    ensures Holds(n) && n.all[n.head..n.head + |Flat(n.kids)|] == Flat(n.kids)
    ensures n.all == n.all[..n.head] + Flat(n.kids) + Tail(n)
  {
    hide Parse, Flat, Built;
    var _ := BuiltHolds(n);
  }

  lemma TimesBegin(m: Node, at: nat, delta: nat)
    requires Fragment(m)
    ensures Widenings(m, 0, at, delta) == Some([]) && MoofKids(m, 0, at, delta, []) == Some([]) && KidAt(m, 0) == m.head
  {
    hide TrafBytes;
  }

  lemma EditTrafIs(t: Node, k: nat, delta: nat)
    requires Holds(t) && k == IndexOf(t.kids, "tfdt") && k < |t.kids|
    ensures EditTraf(t, delta) == EditTime(t.kids[k], delta)
  {
    hide EditTime, Flat;
  }

  lemma TimesStep(m: Node, j: nat, at: nat, delta: nat)
    requires Fragment(m) && j < |m.kids| && Widenings(m, j, at, delta).Some? && MoofKids(m, j, at, delta, []).Some?
    ensures var t, tAt := m.kids[j], at + KidAt(m, j);
      if t.name != "traf" then
        Widenings(m, j + 1, at, delta) == Widenings(m, j, at, delta) &&
        MoofKids(m, j + 1, at, delta, []) == Some(MoofKids(m, j, at, delta, []).value + t.all)
      else
        (EditTraf(t, delta).Refuse? <==> Widenings(m, j + 1, at, delta).None?) &&
        (EditTraf(t, delta).Keep? ==> Widenings(m, j + 1, at, delta) == Widenings(m, j, at, delta)) &&
        (EditTraf(t, delta).Widen? ==> Widenings(m, j + 1, at, delta) == Some(Widenings(m, j, at, delta).value +
           [Widening(tAt + KidAt(t, IndexOf(t.kids, "tfdt")), EditTraf(t, delta).value)])) &&
        (TrafBytes(t, tAt, CountTrafs(m.kids), at, delta, []).Some? ==>
           MoofKids(m, j + 1, at, delta, []) ==
             Some(MoofKids(m, j, at, delta, []).value + TrafBytes(t, tAt, CountTrafs(m.kids), at, delta, []).value))
  {
    hide EditTraf, TrafBytes, Flat;
  }

  lemma TimeRefused(m: Node, j: nat, at: nat, delta: nat)
    requires Fragment(m) && j < |m.kids| && m.kids[j].name == "traf" && EditTraf(m.kids[j], delta).Refuse?
    ensures Widenings(m, |m.kids|, at, delta).None?
  {
    hide EditTraf, Flat, TrafBytes;
    WideningsRefused(m, j + 1, |m.kids|, at, delta);
  }

  // ---- the offsets of a fragment

  /** The unadjusted traf, child by child. */
  lemma TimedSlices(t: Node, tAt: nat, trafs: nat, at: nat, delta: nat, k: nat)
    requires Holds(t) && k < |t.kids| && TrafBytes(t, tAt, trafs, at, delta, []).Some?
    ensures KidBytes(t, k, at, delta, []).Some? && KidAt(t, k) + |t.kids[k].all| == KidAt(t, k + 1) <= |t.all|
    ensures TrafBytes(t, tAt, trafs, at, delta, []).value[KidAt(t, k)..KidAt(t, k) + |t.kids[k].all|] ==
      KidBytes(t, k, at, delta, []).value
  {
    hide Flat, KidBytes, KidsBytes, TrafBytes;
    TrafFits(t, tAt, trafs, at, delta, []);
    var n, kids := |t.kids|, KidsBytes(t, |t.kids|, at, delta, []).value;
    assert t.kids[..n] == t.kids;
    KidsSlice(t, k, n, at, delta, []);
    FlatStep(t.kids, k);
    FlatGrows(t.kids, k + 1);
    var p := |Flat(t.kids[..k])|;
    assert TrafHead(t, tAt, []) == t.all[..t.head];
    SliceBehind(t.all[..t.head], kids, Tail(t), p, p + |t.kids[k].all|);
  }

  lemma SliceBehind(a: seq<Byte>, b: seq<Byte>, c: seq<Byte>, i: nat, j: nat)
    requires i <= j <= |b|
    ensures (a + b + c)[|a| + i..|a| + j] == b[i..j]
  {
  }

  lemma TimedHead(t: Node, tAt: nat, trafs: nat, at: nat, delta: nat)
    requires Holds(t) && TrafBytes(t, tAt, trafs, at, delta, []).Some?
    ensures TrafBytes(t, tAt, trafs, at, delta, []).value[4..8] == t.all[4..8]
  {
    hide Flat, KidBytes, KidsBytes;
    assert t.kids[..|t.kids|] == t.kids;
  }

  lemma TimedTail(t: Node, tAt: nat, trafs: nat, at: nat, delta: nat)
    requires Holds(t) && TrafBytes(t, tAt, trafs, at, delta, []).Some?
    ensures TrafBytes(t, tAt, trafs, at, delta, []).value[t.head + |Flat(t.kids)|..] == Tail(t)
  {
    hide Flat, KidBytes, KidsBytes;
    assert t.kids[..|t.kids|] == t.kids;
  }

  lemma KidStep(t: Node, k: nat, at: nat, delta: nat, ws: seq<Widening>)
    requires Holds(t) && k < |t.kids| && KidsBytes(t, k, at, delta, ws).Some?
    ensures KidsBytes(t, k + 1, at, delta, ws) ==
      if KidBytes(t, k, at, delta, ws).None? then None
      else Some(KidsBytes(t, k, at, delta, ws).value + KidBytes(t, k, at, delta, ws).value)
  {
    hide Flat, KidBytes;
  }

  /** The adjustment of one child at `partAt`. */
  method AdjustKid(out0: seq<Byte>, partAt: nat, t: Node, k: nat, at: nat, delta: nat, ws: seq<Widening>)
    returns (ok: bool, out: seq<Byte>)
    requires Holds(t) && k < |t.kids| && ws != [] && partAt + |t.kids[k].all| <= |out0|
    requires KidBytes(t, k, at, delta, []).Some?
    requires out0[partAt..partAt + |t.kids[k].all|] == KidBytes(t, k, at, delta, []).value
    ensures ok <==> KidBytes(t, k, at, delta, ws).Some?
    ensures ok ==> out == Put(out0, partAt, KidBytes(t, k, at, delta, ws).value)
  {
    hide Flat, TimedKid, EditTrun, EditSaio, Put;
    var c := t.kids[k];
    ghost var part := TimedKid(t, k, delta);
    if c.name == "trun" {
      ok, out := AdjustTrun(out0, partAt, c, out0[partAt..partAt + |c.all|], at, ws);
    } else if c.name == "saio" {
      ok, out := AdjustSaio(out0, partAt, c, out0[partAt..partAt + |c.all|], at, ws);
    } else {
      PutSame(out0, partAt, part);
      ok, out := true, out0;
    }
  }

  method AdjustTraf(out0: seq<Byte>, tAt: nat, t: Node, trafs: nat, at: nat, delta: nat, ws: seq<Widening>)
    returns (ok: bool, out: seq<Byte>)
    requires Holds(t) && ws != [] && tAt + |t.all| <= |out0| && TrafBytes(t, tAt, trafs, at, delta, []).Some?
    requires out0[tAt..tAt + |t.all|] == TrafBytes(t, tAt, trafs, at, delta, []).value
    ensures ok <==> TrafBytes(t, tAt, trafs, at, delta, ws).Some?
    ensures ok ==> out == Put(out0, tAt, TrafBytes(t, tAt, trafs, at, delta, ws).value)
  {
    hide Flat, KidBytes, KidsBytes, TrafBytes, Put, BE, MoofRelative;
    out := out0;
    TrafCases(t, tAt, trafs, at, delta, ws);
    if t.head != 8 || !MoofRelative(t, trafs) {
      return false, out;
    }
    var own := CountWithin(ws, tAt, tAt + |t.all|);
    ghost var timed := TrafBytes(t, tAt, trafs, at, delta, []).value;
    ghost var done := GrownHead(t, own);
    out := Put(out, tAt, BE(4, (|t.all| + 4 * own) % TwoTo32));
    TimedHead(t, tAt, trafs, at, delta);
    SliceOfSlice(out0, tAt, tAt + |t.all|, 4, 8);
    HeadWritten(out0, tAt, t, own);
    KidsBegin(t, at, delta, ws);
    ghost var head := done;
    ghost var kids: seq<Byte> := [];
    assert head + kids == done;
    for k := 0 to |t.kids|
      invariant KidsBytes(t, k, at, delta, ws) == Some(kids) && |kids| == KidAt(t, k) - 8 && KidAt(t, k) <= |t.all|
      invariant |out| == |out0| && out == Put(out0, tAt, head + kids)
    {
      var c, partAt := t.kids[k], tAt + KidAt(t, k);
      TimedSlices(t, tAt, trafs, at, delta, k);
      SliceOfSlice(out0, tAt, tAt + |t.all|, KidAt(t, k), KidAt(t, k) + |c.all|);
      LaterSlice(out0, tAt, head + kids, partAt, partAt + |c.all|);
      KidStep(t, k, at, delta, ws);
      var fine, next := AdjustKid(out, partAt, t, k, at, delta, ws);
      if !fine {
        KidsRefused(t, k + 1, |t.kids|, at, delta, ws);
        return false, out;
      }
      out := next;
      ghost var last := KidBytes(t, k, at, delta, ws).value;
      PutNext(out0, tAt, head + kids, last);
      assert head + kids + last == head + (kids + last);
      kids := kids + last;
    }
    TimedTail(t, tAt, trafs, at, delta);
    assert t.kids[..|t.kids|] == t.kids;
    TailKept(out0, tAt, timed, head + kids, Tail(t));
    return true, out;
  }

  /** What is not rewritten at the end of a range. */
  lemma TailKept(out: seq<Byte>, a: nat, whole: seq<Byte>, x: seq<Byte>, tail: seq<Byte>)
    requires a + |whole| <= |out| && out[a..a + |whole|] == whole && |x| + |tail| == |whole| && whole[|x|..] == tail
    ensures Put(out, a, x) == Put(out, a, x + tail)
  {
    SliceOfSlice(out, a, a + |whole|, |x|, |whole|);
    LaterSlice(out, a, x, a + |x|, a + |whole|);
    PutSame(Put(out, a, x), a + |x|, tail);
    PutNext(out, a, x, tail);
  }

  lemma KidsBegin(t: Node, at: nat, delta: nat, ws: seq<Widening>)
    requires Holds(t)
    ensures KidsBytes(t, 0, at, delta, ws) == Some([]) && KidAt(t, 0) == t.head
  {
  }

  lemma TrafCases(t: Node, tAt: nat, trafs: nat, at: nat, delta: nat, ws: seq<Widening>)
    requires Holds(t) && ws != []
    ensures t.head != 8 || !MoofRelative(t, trafs) ==> TrafBytes(t, tAt, trafs, at, delta, ws).None?
    ensures KidsBytes(t, |t.kids|, at, delta, ws).None? ==> TrafBytes(t, tAt, trafs, at, delta, ws).None?
    ensures t.head == 8 && MoofRelative(t, trafs) && KidsBytes(t, |t.kids|, at, delta, ws).Some? ==>
      TrafBytes(t, tAt, trafs, at, delta, ws) ==
        Some(GrownHead(t, CountWithin(ws, tAt, tAt + |t.all|)) + KidsBytes(t, |t.kids|, at, delta, ws).value + Tail(t))
  {
    hide Flat, KidsBytes, MoofRelative, GrownHead;
  }

  /** The size write rewrites the whole compact header: its type stays. */
  lemma HeadWritten(out: seq<Byte>, at: nat, n: Node, widened: nat)
    requires Holds(n) && n.head == 8 && at + |n.all| <= |out| && |n.all| >= 8 && out[at + 4..at + 8] == n.all[4..8]
    ensures Put(out, at, BE(4, (|n.all| + 4 * widened) % TwoTo32)) == Put(out, at, GrownHead(n, widened))
  {
    hide BE, Flat;
    var size := BE(4, (|n.all| + 4 * widened) % TwoTo32);
    LaterSlice(out, at, size, at + 4, at + 8);
    PutSame(Put(out, at, size), at + 4, n.all[4..8]);
    PutNext(out, at, size, n.all[4..8]);
  }

  lemma MoofStep(m: Node, j: nat, at: nat, delta: nat, ws: seq<Widening>)
    requires Fragment(m) && j < |m.kids| && MoofKids(m, j, at, delta, ws).Some?
    ensures MoofKids(m, j + 1, at, delta, ws) ==
      if ChildBytes(m, j, at, delta, ws).None? then None
      else Some(MoofKids(m, j, at, delta, ws).value + ChildBytes(m, j, at, delta, ws).value)
  {
    hide Flat, TrafBytes;
  }

  /** The time pass left each child in its place. */
  lemma ChildSlice(m: Node, j: nat, at: nat, delta: nat)
    requires Fragment(m) && j < |m.kids| && MoofKids(m, |m.kids|, at, delta, []).Some?
    ensures ChildBytes(m, j, at, delta, []).Some? && KidAt(m, j) + |m.kids[j].all| == KidAt(m, j + 1) <= |m.all|
    ensures |MoofKids(m, |m.kids|, at, delta, []).value| == |Flat(m.kids)|
    ensures var kids, p := MoofKids(m, |m.kids|, at, delta, []).value, KidAt(m, j) - m.head;
      p + |m.kids[j].all| <= |kids| && kids[p..p + |m.kids[j].all|] == ChildBytes(m, j, at, delta, []).value
  {
    hide Flat, MoofKids, ChildBytes;
    assert m.kids[..|m.kids|] == m.kids;
    MoofSlice(m, j, |m.kids|, at, delta, []);
    FlatStep(m.kids, j);
    FlatGrows(m.kids, j + 1);
  }

  /** `adjust_for_widenings`, after the time pass. */
  method AdjustForWidenings(out0: seq<Byte>, m: Node, at: nat, delta: nat, ws: seq<Widening>)
    returns (ok: bool, out: seq<Byte>)
    requires Fragment(m) && ws != [] && at + |m.all| <= |out0| && MoofKids(m, |m.kids|, at, delta, []).Some?
    requires m.head + |MoofKids(m, |m.kids|, at, delta, []).value| <= |m.all|
    requires out0[at + m.head..at + m.head + |MoofKids(m, |m.kids|, at, delta, []).value|] ==
      MoofKids(m, |m.kids|, at, delta, []).value
    requires out0[at + 4..at + 8] == m.all[4..8]
    ensures ok <==> m.head == 8 && MoofKids(m, |m.kids|, at, delta, ws).Some?
    ensures ok ==> out == Put(out0, at, GrownHead(m, |ws|) + MoofKids(m, |m.kids|, at, delta, ws).value)
  {
    hide Flat, TrafBytes, MoofKids, Put, GrownHead;
    out := out0;
    if m.head != 8 {
      return false, out;
    }
    ghost var timed := MoofKids(m, |m.kids|, at, delta, []).value;
    ghost var done: seq<Byte> := [];
    AdjustBegin(m, at, delta, ws);
    PutNothing(out0, at + 8);
    for j := 0 to |m.kids|
      invariant MoofKids(m, j, at, delta, ws) == Some(done) && |done| == KidAt(m, j) - 8 && KidAt(m, j) <= |m.all|
      invariant |out| == |out0| && out == Put(out0, at + 8, done)
    {
      var t, tAt := m.kids[j], at + KidAt(m, j);
      ChildSlice(m, j, at, delta);
      SliceOfSlice(out0, at + 8, at + 8 + |timed|, KidAt(m, j) - 8, KidAt(m, j) - 8 + |t.all|);
      LaterSlice(out0, at + 8, done, tAt, tAt + |t.all|);
      MoofStep(m, j, at, delta, ws);
      ghost var last := t.all;
      if t.name == "traf" {
        var fine, next := AdjustTraf(out, tAt, t, CountTrafs(m.kids), at, delta, ws);
        if !fine {
          MoofKidsRefused(m, j + 1, |m.kids|, at, delta, ws);
          return false, out;
        }
        out := next;
        last := TrafBytes(t, tAt, CountTrafs(m.kids), at, delta, ws).value;
      } else {
        PutSame(out, tAt, t.all);
      }
      PutNext(out0, at + 8, done, last);
      done := done + last;
    }
    var before := out;
    out := Put(out, at, BE(4, (|m.all| + 4 * |ws|) % TwoTo32));
    FrontWrite(out0, at, m, |ws|, done);
    return true, out;
  }

  lemma AdjustBegin(m: Node, at: nat, delta: nat, ws: seq<Widening>)
    requires Fragment(m)
    ensures MoofKids(m, 0, at, delta, ws) == Some([]) && KidAt(m, 0) == m.head <= |m.all|
  {
    hide TrafBytes;
  }

  lemma FrontWrite(out: seq<Byte>, at: nat, m: Node, widened: nat, kids: seq<Byte>)
    requires Holds(m) && m.head == 8 && at + |m.all| <= |out| && 8 + |kids| <= |m.all| && out[at + 4..at + 8] == m.all[4..8]
    ensures Put(Put(out, at + 8, kids), at, BE(4, (|m.all| + 4 * widened) % TwoTo32)) ==
      Put(out, at, GrownHead(m, widened) + kids)
  {
    hide BE, Flat;
    var size := BE(4, (|m.all| + 4 * widened) % TwoTo32);
    var kind := m.all[4..8];
    assert GrownHead(m, widened) == size + kind;
    PutSame(out, at + 4, kind);
    assert Put(out, at + 8, kids) == Put(out, at + 4, kind + kids) by {
      PutNext(out, at + 4, kind, kids);
    }
    assert size + (kind + kids) == size + kind + kids;
    PutPair(out, at, size, kind + kids);
  }

  /** Two adjacent writes in either order. */
  lemma PutPair(out: seq<Byte>, at: nat, x: seq<Byte>, y: seq<Byte>)
    requires at + |x| + |y| <= |out|
    ensures Put(Put(out, at + |x|, y), at, x) == Put(out, at, x + y)
  {
  }

  // ---- the whole payload

  /** A write inside a range and then one that covers it from the front. */
  lemma PutOver(out: seq<Byte>, at: nat, p: nat, x: seq<Byte>, y: seq<Byte>)
    requires at + p + |x| <= |out| && p + |x| <= |y| && at + |y| <= |out|
    ensures Put(Put(out, at + p, x), at, y) == Put(out, at, y)
  {
  }

  lemma MoofParts(m: Node, at: nat, delta: nat, ws: seq<Widening>)
    requires Built(m) && m.name == "moof" && Fragment(m) && Widenings(m, |m.kids|, at, delta) == Some(ws)
    ensures MoofBytes(m, at, delta).Some? <==> (ws != [] ==> m.head == 8) && MoofKids(m, |m.kids|, at, delta, ws).Some?
    ensures MoofBytes(m, at, delta).Some? ==>
      MoofBytes(m, at, delta).value ==
        ((if ws == [] then m.all[..m.head] else GrownHead(m, |ws|)) + MoofKids(m, |m.kids|, at, delta, ws).value + Tail(m), ws)
    ensures m.all == m.all[..m.head] + Flat(m.kids) + Tail(m) && m.head + |Flat(m.kids)| <= |m.all|
    ensures forall r | MoofKids(m, |m.kids|, at, delta, r).Some? ::
      |MoofKids(m, |m.kids|, at, delta, r).value| == |Flat(m.kids)|
  {
    hide Parse, Flat, Built, Widenings, MoofKids, GrownHead;
    assert m.kids[..|m.kids|] == m.kids;
    HoldsHere(m);
  }

  /** One movie fragment: the time pass, and the offset pass when something widens. */
  method RebaseMoof(out0: seq<Byte>, m: Node, at: nat, delta: nat) returns (ok: bool, out: seq<Byte>, ws: seq<Widening>)
    requires Built(m) && m.name == "moof" && Fragment(m) && at + |m.all| <= |out0| && out0[at..at + |m.all|] == m.all
    ensures ok <==> MoofBytes(m, at, delta).Some?
    ensures ok ==> MoofBytes(m, at, delta).value.1 == ws && out == Put(out0, at, MoofBytes(m, at, delta).value.0)
  {
    hide Parse, Flat, Built, Widenings, MoofKids, GrownHead, MoofBytes, Put;
    ok, out, ws := RebaseMoofTimes(out0, m, at, delta);
    if !ok {
      MoofNeedsTimes(m, at, delta);
      return;
    }
    MoofParts(m, at, delta, ws);
    ghost var head, timed, tail := m.all[..m.head], MoofKids(m, |m.kids|, at, delta, []).value, Tail(m);
    SliceOfSlice(out0, at, at + |m.all|, 0, m.head);
    PutSame(out0, at, head);
    PutNext(out0, at, head, timed);
    if ws == [] {
      TailKept(out0, at, m.all, head + timed, tail);
      return;
    }
    var timesDone := out;
    SliceOfSlice(out0, at, at + |m.all|, 4, 8);
    if m.head == 8 {
      TypeKept(out0, at, timed);
    }
    PutReads(out0, at + m.head, timed);
    if m.head != 8 {
      return false, out, ws;
    }
    ok, out := AdjustForWidenings(timesDone, m, at, delta, ws);
    if ok {
      ghost var front := GrownHead(m, |ws|) + MoofKids(m, |m.kids|, at, delta, ws).value;
      GrownLength(m, |ws|);
      PutOver(out0, at, 8, timed, front);
      TailKept(out0, at, m.all, front, tail);
    }
  }

  lemma GrownLength(m: Node, n: nat)
    requires Holds(m)
    ensures |GrownHead(m, n)| == 8
  {
    hide BE, Flat;
  }

  lemma TypeKept(out: seq<Byte>, at: nat, timed: seq<Byte>)
    requires at + 8 + |timed| <= |out|
    ensures Put(out, at + 8, timed)[at + 4..at + 8] == out[at + 4..at + 8]
  {
  }

  lemma PutReads(out: seq<Byte>, a: nat, x: seq<Byte>)
    requires a + |x| <= |out|
    ensures Put(out, a, x)[a..a + |x|] == x
  {
  }

  lemma MoofNeedsTimes(m: Node, at: nat, delta: nat)
    requires Fragment(m) && Widenings(m, |m.kids|, at, delta).None?
    ensures MoofBytes(m, at, delta).None?
  {
    hide Flat, Widenings;
  }

  /** The insertion loop, from the last widening to the first. */
  method InsertWidenings(out0: seq<Byte>, ws: seq<Widening>) returns (out: seq<Byte>)
    requires Spaced(ws, 0, |out0|)
    ensures out == Grow(out0, 0, ws)
  {
    hide Grow, BE, WideBox, Spaced;
    out := out0;
    ghost var p, tail: seq<Byte> := |out0|, [];
    assert out0[..p] == out0 && ws[..|ws|] == ws;
    var i: nat := |ws|;
    while i > 0
      invariant i <= |ws| && p <= |out0| && Spaced(ws[..i], 0, p)
      invariant out == out0[..p] + tail && Grow(out0, 0, ws) == Grow(out0[..p], 0, ws[..i]) + tail
    {
      i := i - 1;
      var box := ws[i].at;
      assert ws[..i + 1][..i] == ws[..i];
      GrowLast(out0[..p], 0, ws[..i + 1]);
      ghost var before := out;
      out := Put(out, box, BE(4, 20));
      out := Put(out, box + 8, [1]);
      var value := BE(8, ws[i].value);
      out := out[..box + 12] + out[box + 16..];
      out := out[..box + 12] + value + out[box + 12..];
      WideInPlace(before, box, ws[i].value);
      Suffix(out0, p, box, tail, WideBox(out0[box..box + 16], ws[i].value));
      assert out0[..p][..box] == out0[..box] && out0[..p][box..box + 16] == out0[box..box + 16] &&
        out0[..p][box + 16..] == out0[box + 16..p];
      tail := WideBox(out0[box..box + 16], ws[i].value) + out0[box + 16..p] + tail;
      p := box;
    }
    assert ws[..i] == [];
    GrowNothing(out0[..p], 0);
  }

  lemma Suffix(out0: seq<Byte>, p: nat, box: nat, tail: seq<Byte>, wide: seq<Byte>)
    requires box + 16 <= p <= |out0|
    ensures var out := out0[..p] + tail;
      out[..box] == out0[..box] && out[box..box + 16] == out0[box..box + 16] && out[box + 16..] == out0[box + 16..p] + tail &&
      out0[..box] + wide + (out0[box + 16..p] + tail) == out0[..box] + (wide + out0[box + 16..p] + tail)
  {
  }

  /** The four edits of one insertion give the wide box. */
  lemma WideInPlace(out: seq<Byte>, box: nat, value: nat)
    requires box + 16 <= |out|
    ensures var sized := Put(out, box, BE(4, 20));
      var versioned := Put(sized, box + 8, [1]);
      var erased := versioned[..box + 12] + versioned[box + 16..];
      |erased| >= box + 12 &&
      erased[..box + 12] + BE(8, value) + erased[box + 12..] ==
        out[..box] + WideBox(out[box..box + 16], value) + out[box + 16..]
  {
    hide BE;
    var b := out[box..box + 16];
    SliceOfSlice(out, box, box + 16, 4, 8);
    SliceOfSlice(out, box, box + 16, 9, 12);
    var sized := Put(out, box, BE(4, 20));
    var versioned := Put(sized, box + 8, [1]);
    assert versioned == out[..box] + (BE(4, 20) + b[4..8] + [1] + b[9..12]) + out[box + 12..];
  }

  /** `rebase_cmaf_timestamps`: true with the rebased payload, or false with the payload as it was. */
  method RebaseCmafTimestamps(payload: seq<Byte>, delta: nat) returns (ok: bool, result: seq<Byte>)
    ensures ok <==> Rebase(payload, delta).Some?
    ensures result == if ok then Rebase(payload, delta).value else payload
  {
    hide Parse, Flat, Built, TopBytes, MoofBytes, Fragment, Grow, Spaced, Put;
    result := payload;
    var parsed := ParseBoxRange(payload);
    if parsed.None? {
      return false, payload;
    }
    var nodes := parsed.value;
    ParsedBuilt(payload);
    ghost var tail := ParseTiles(payload);
    var out, all, found, at: nat := payload, [], false, 0;
    ghost var done: seq<Byte> := [];
    TopNothing(nodes, delta);
    PutNothing(payload, 0);
    assert nodes[..|nodes|] == nodes;
    for i := 0 to |nodes|
      invariant TopBytes(nodes, i, delta) == Some((done, all)) && |done| == |Flat(nodes[..i])| == at <= |payload|
      invariant |out| == |payload| && out == Put(payload, 0, done)
      invariant found <==> SomeTraf(nodes[..i])
    {
      var m := nodes[i];
      NodeSlice(payload, nodes, tail, i);
      LaterSlice(payload, 0, done, at, at + |m.all|);
      TopCases(nodes, i, delta);
      found := found || (m.name == "moof" && CountTrafs(m.kids) > 0);
      SomeTrafStep(nodes, i);
      ghost var last := m.all;
      if m.name == "moof" {
        var fine, next, ws := RebaseMoof(out, m, at, delta);
        if !fine {
          TopRefused(nodes, i + 1, |nodes|, delta);
          return false, payload;
        }
        out := next;
        last := MoofBytes(m, at, delta).value.0;
        all := all + ws;
      } else {
        PutSame(out, at, m.all);
        assert all + [] == all;
      }
      PutNext(payload, 0, done, last);
      done := done + last;
      at := at + |m.all|;
    }
    if !found {
      return false, payload;
    }
    AllSpaced(nodes, delta, |payload|);
    PutFront(payload, done);
    result := InsertWidenings(out, all);
    return true, result;
  }

  lemma PutFront(out: seq<Byte>, x: seq<Byte>)
    requires |x| <= |out|
    ensures Put(out, 0, x) == x + out[|x|..]
  {
  }

  lemma NodeSlice(payload: seq<Byte>, nodes: seq<Node>, tail: seq<Byte>, i: nat)
    requires payload == Flat(nodes) + tail && i < |nodes|
    ensures var p := |Flat(nodes[..i])|;
      p + |nodes[i].all| == |Flat(nodes[..i + 1])| <= |payload| && payload[p..p + |nodes[i].all|] == nodes[i].all
  {
    hide Flat;
    FlatSlice(nodes, i);
    FlatStep(nodes, i);
    var p := |Flat(nodes[..i])|;
    assert payload[p..p + |nodes[i].all|] == Flat(nodes)[p..p + |nodes[i].all|];
  }

  lemma TopCases(nodes: seq<Node>, i: nat, delta: nat)
    requires Fragments(nodes) && i < |nodes| && TopBytes(nodes, i, delta).Some?
    ensures var before, at := TopBytes(nodes, i, delta).value, |Flat(nodes[..i])|;
      if nodes[i].name != "moof" then
        TopBytes(nodes, i + 1, delta) == Some((before.0 + nodes[i].all, before.1 + []))
      else
        Fragment(nodes[i]) && TopBytes(nodes, i + 1, delta) ==
          if MoofBytes(nodes[i], at, delta).None? then None
          else Some((before.0 + MoofBytes(nodes[i], at, delta).value.0, before.1 + MoofBytes(nodes[i], at, delta).value.1))
  {
    hide MoofBytes, Flat, Fragment;
  }

  lemma {:induction false} TrafsCounted(kids: seq<Node>)
    ensures CountTrafs(kids) > 0 <==> exists t | t in kids :: t.name == "traf"
  {
    if kids != [] {
      TrafsCounted(kids[..|kids| - 1]);
      assert forall t :: t in kids <==> t in kids[..|kids| - 1] || t == kids[|kids| - 1];
    }
  }

  lemma SomeTrafStep(nodes: seq<Node>, i: nat)
    requires i < |nodes|
    ensures SomeTraf(nodes[..i + 1]) <==>
      SomeTraf(nodes[..i]) || (nodes[i].name == "moof" && CountTrafs(nodes[i].kids) > 0)
  {
    TrafsCounted(nodes[i].kids);
    assert forall m :: m in nodes[..i + 1] <==> m in nodes[..i] || m == nodes[i];
  }
}
