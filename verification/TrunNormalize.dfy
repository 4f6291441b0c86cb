/**
 * Normalizing a live moof: the samples of its run are written out in full, the run
 * points behind the new moof, and auxiliary information offsets follow what moved.
 */
module TrunNormalize {
  import opened Bytes
  import opened Mp4Boxes
  import opened BoxWriter
  import opened CmafRebase
  import opened RunFormat
  import F = FragmentReader

  datatype Run = Run(version: Byte, flags: nat, samples: seq<Entry>)

  // ---- reading the run

  /** One entry of the run and where the next one is; None for an exception. */
  function EntryAt(b: seq<Byte>, pos: nat, flags: nat, own: nat, d: F.Defaults): Option<(Entry, nat)> {
    var duration := F.Take(b, pos, HasBit(flags, 8), d.duration);
    if duration.None? then None
    else
      var size := F.Take(b, duration.value.1, HasBit(flags, 9), d.size);
      if size.None? then None
      else
        var sampleFlags := F.Take(b, size.value.1, HasBit(flags, 10), own);
        if sampleFlags.None? then None
        else
          var shift := F.Take(b, sampleFlags.value.1, HasBit(flags, 11), 0);
          if shift.None? || size.value.0 == 0 then None
          else Some((Entry(duration.value.0, size.value.0, sampleFlags.value.0, shift.value.0), shift.value.1))
  }

  /** The first `k` entries and where they end. */
  function EntriesTo(b: seq<Byte>, pos: nat, flags: nat, first: nat, d: F.Defaults,
                     k: nat): (r: Option<(seq<Entry>, nat)>)
    ensures r.Some? ==> |r.value.0| == k
  {
    if k == 0 then Some(([], pos))
    else
      var before := EntriesTo(b, pos, flags, first, d, k - 1);
      if before.None? then None
      else
        var entry := EntryAt(b, before.value.1, flags, if k == 1 then first else d.flags, d);
        if entry.None? then None else Some((before.value.0 + [entry.value.0], entry.value.1))
  }

  /** The run whose payload is at `at`: what its samples are, whatever the defaults leave unsaid. */
  function RunAt(b: seq<Byte>, at: nat, d: F.Defaults): Option<Run> {
    if at + 8 > |b| then None
    else
      var flags := FromBE(b[at + 1..at + 4]);
      var offset := F.Take(b, at + 8, HasBit(flags, 0), 0);
      if offset.None? then None
      else
        var first := F.Take(b, offset.value.1, HasBit(flags, 2), d.flags);
        if first.None? then None
        else
          var entries := EntriesTo(b, first.value.1, flags, first.value.0, d, FromBE(b[at + 4..at + 8]));
          if entries.None? then None else Some(Run(b[at], flags, entries.value.0))
  }

  // ---- writing it out

  /** Data offset, duration, size and flags are stated; first-sample flags are not. */
  function NormalFlags(flags: nat): nat {
    BitOr(if HasBit(flags, 2) && flags >= 4 then flags - 4 else flags, 0x000701)
  }

  function EntryBytes(s: Entry, shifted: bool): (r: seq<Byte>)
    ensures |r| == if shifted then 16 else 12
  {
    BE(4, s.duration) + BE(4, s.size) + BE(4, s.flags) + (if shifted then BE(4, s.shift) else [])
  }

  function EntriesBytes(samples: seq<Entry>, shifted: bool): seq<Byte> {
    if samples == [] then [] else EntriesBytes(samples[..|samples| - 1], shifted) + EntryBytes(samples[|samples| - 1], shifted)
  }

  function NormalTrun(run: Run, dataOffset: nat): seq<Byte> {
    FullBox("trun", run.version, NormalFlags(run.flags),
            BE(4, |run.samples|) + BE(4, dataOffset) + EntriesBytes(run.samples, HasBit(NormalFlags(run.flags), 11)))
  }

  // ---- auxiliary information offsets

  /** `find_child_box_span`: a walk over 32-bit sizes that stops at the first odd one. */
  predicate Walks(b: seq<Byte>, cursor: nat, limit: nat, name: string)
    requires limit <= |b|
    decreases if cursor <= limit then limit - cursor else 0
  {
    if cursor + 8 > limit then false
    else
      var size := FromBE(b[cursor..cursor + 4]);
      if size < 8 || cursor + size > limit then false
      else Name(b[cursor + 4..cursor + 8]) == name || Walks(b, cursor + size, limit, name)
  }

  /** An offset from the old end of the run on moves with what it names; None past the mdat, or before the moof. */
  function MoveEntry(offset: nat, limit: nat, runEnd: nat, delta: int): Option<nat> {
    if offset >= limit then None
    else if offset < runEnd then Some(offset)
    else if offset + delta < 0 then None
    else Some(offset + delta)
  }

  function MoveEntries(entries: seq<Byte>, width: nat, i: nat, limit: nat, runEnd: nat, delta: int): (r: Option<seq<Byte>>)
    requires width > 0 && width * i <= |entries|
    ensures r.Some? ==> |r.value| == width * i
  {
    if i == 0 then Some([])
    else
      var before := MoveEntries(entries, width, i - 1, limit, runEnd, delta);
      var moved := MoveEntry(FromBE(entries[width * (i - 1)..width * i]), limit, runEnd, delta);
      if before.None? || moved.None? then None else Some(before.value + BE(width, moved.value))
  }

  /** `correct_saio_offsets`; `found` says that the traf has a senc or saiz box. */
  function CorrectSaio(c: Node, found: bool, limit: nat, runEnd: nat, delta: int): (r: Option<seq<Byte>>)
    ensures r.Some? ==> c.head <= |c.all| == |r.value|
  {
    if c.head > |c.all| || SaioLayout(c.all[c.head..]).None? || c.all[c.head] > 1 || !found then None
    else
      var body := c.all[c.head..];
      var (start, width, count) := SaioLayout(body).value;
      SaioFits(body);
      var moved := MoveEntries(body[start..], width, count, limit, runEnd, delta);
      if moved.None? then None else Some(Put(c.all, c.head + start, moved.value))
  }

  // ---- the moof

  /** The moof, its first traf and the first trun of that. */
  datatype Place = Place(moof: Node, j: nat, k: nat) {
    predicate Inside() {
      j < |moof.kids| && k < |moof.kids[j].kids|
    }

    function Traf(): Node
      requires Inside()
    {
      moof.kids[j]
    }

    function Trun(): Node
      requires Inside()
    {
      moof.kids[j].kids[k]
    }

    function TrafAt(): nat
      requires Inside()
    {
      KidAt(moof, j)
    }

    function TrunAt(): nat
      requires Inside()
    {
      KidAt(moof, j) + KidAt(moof.kids[j], k)
    }

    function TrunEnd(): nat
      requires Inside()
    {
      TrunAt() + |Trun().all|
    }
  }

  function Locate(b: seq<Byte>): (r: Option<Place>)
    ensures r.Some? ==> r.value.Inside()
  {
    if Parse(b).None? || Parse(b).value == [] || Parse(b).value[0].name != "moof" then None
    else
      var moof := Parse(b).value[0];
      var j := IndexOf(moof.kids, "traf");
      if j == |moof.kids| then None
      else
        var k := IndexOf(moof.kids[j].kids, "trun");
        if k == |moof.kids[j].kids| || |Payload(moof.kids[j].kids[k])| < 8 ||
           exists i | 0 <= i < |moof.kids| ::
             i != j && moof.kids[i].name == "traf" && Find(moof.kids[i].kids, "saio").Some?
        then None
        else Some(Place(moof, j, k))
  }

  predicate Locatable(b: seq<Byte>, w: Place)
    requires w.Inside()
  {
    var end := w.TrafAt() + |w.Traf().all|;
    var limit := if end < |b| then end else |b|;
    Walks(b, w.TrafAt() + 8, limit, "senc") || Walks(b, w.TrafAt() + 8, limit, "saiz")
  }

  /** What rebuilding a child of the traf needs to know. */
  datatype Change = Change(trun: seq<Byte>, found: bool, limit: nat, delta: int)

  function NewKid(w: Place, i: nat, ch: Change): Option<Node>
    requires w.Inside() && i < |w.Traf().kids|
  {
    var c := w.Traf().kids[i];
    if i == w.k then Some(Node("trun", 8, ch.trun, []))
    else if c.name == "saio" && ch.delta != 0 then
      var moved := CorrectSaio(c, ch.found, ch.limit, w.TrunEnd(), ch.delta);
      if moved.None? then None else Some(c.(all := moved.value))
    else Some(c)
  }

  function NewKids(w: Place, n: nat, ch: Change): (r: Option<seq<Node>>)
    requires w.Inside() && n <= |w.Traf().kids|
    ensures r.Some? ==> |r.value| == n
  {
    if n == 0 then Some([])
    else
      var before, kid := NewKids(w, n - 1, ch), NewKid(w, n - 1, ch);
      if before.None? || kid.None? then None else Some(before.value + [kid.value])
  }

  function NewMoof(w: Place, kids: seq<Node>): seq<Byte>
    requires w.Inside()
  {
    Box("moof", Flat(w.moof.kids[..w.j]) + Box("traf", Flat(kids)) + Flat(w.moof.kids[w.j + 1..]))
  }

  function Rebuild(w: Place, ch: Change): Option<seq<Byte>>
    requires w.Inside()
  {
    var kids := NewKids(w, |w.Traf().kids|, ch);
    if kids.None? then None else Some(NewMoof(w, kids.value))
  }

  /** The size of the rebuilt moof, from a first rebuild that moves nothing. */
  function NewSize(w: Place, run: Run): Option<nat>
    requires w.Inside()
  {
    var placeholder := Rebuild(w, Change(NormalTrun(run, 0), false, 0, 0));
    if placeholder.None? then None else Some(|placeholder.value|)
  }

  /** What the rebuild starts from: the boxes, the run as it reads, and the size of the new moof. */
  datatype Plan = Plan(place: Place, run: Run, size: nat)

  function PlanOf(b: seq<Byte>, d: F.Defaults): (r: Option<Plan>)
    ensures r.Some? ==> r.value.place.Inside()
  {
    if Locate(b).None? then None
    else
      var w := Locate(b).value;
      var run := RunAt(b, w.TrunAt() + w.Trun().head, d);
      if run.None? || NewSize(w, run.value).None? then None else Some(Plan(w, run.value, NewSize(w, run.value).value))
  }

  /** The data offset is that of the first byte behind the mdat header. */
  function ChangeOf(b: seq<Byte>, mdatSize: nat, p: Plan): Change
    requires p.place.Inside()
  {
    Change(NormalTrun(p.run, p.size + 8), Locatable(b, p.place), |p.place.moof.all| + mdatSize,
           p.size - |p.place.moof.all|)
  }

  /** `materialize_live_trun_defaults`; None for an exception. */
  function Normalize(b: seq<Byte>, mdatSize: nat, d: F.Defaults): Option<seq<Byte>> {
    if PlanOf(b, d).None? then None
    else Rebuild(PlanOf(b, d).value.place, ChangeOf(b, mdatSize, PlanOf(b, d).value))
  }
}
