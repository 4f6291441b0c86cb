/**
 * Content protection entries shared between tracks: one root entry per DRM
 * system and scheme, numbered in order of appearance, with every track pointing
 * at the entries that carry its key.
 */
module CatalogProtection {
  import opened Bytes
  import opened Catalog
  import opened Decimals

  datatype DrmSystem = DrmSystem(systemId: string, pssh: string)

  /** The first entry of this system and scheme, or the end of the list. */
  function FindEntry(ps: seq<Protection>, systemId: string, scheme: string): (i: nat)
    ensures i <= |ps|
    ensures i < |ps| ==> ps[i].systemId == systemId && ps[i].scheme == scheme
    ensures forall k | 0 <= k < i :: !(ps[k].systemId == systemId && ps[k].scheme == scheme)
    decreases |ps|
  {
    if ps == [] || (ps[0].systemId == systemId && ps[0].scheme == scheme) then 0
    else 1 + FindEntry(ps[1..], systemId, scheme)
  }

  function AppendNew(xs: seq<string>, x: string): seq<string> {
    if x in xs then xs else xs + [x]
  }

  function NewEntry(count: nat, scheme: string, kid: string, system: DrmSystem): Protection {
    Protection(Decimal(count + 1), [kid], scheme, system.systemId, None, None,
               if system.pssh == "" then None else Some(system.pssh), None)
  }

  function AttachOne(ps: seq<Protection>, refs: seq<string>, scheme: string, kid: string, system: DrmSystem):
      (seq<Protection>, seq<string>)
  {
    var i := FindEntry(ps, system.systemId, scheme);
    var next := if i == |ps| then ps + [NewEntry(|ps|, scheme, kid, system)]
                else ps[i := ps[i].(defaultKids := AppendNew(ps[i].defaultKids, kid))];
    (next, AppendNew(refs, next[i].refId))
  }

  /** `attach_content_protection`: the root entries and one track's references after it. */
  function Attach(ps: seq<Protection>, refs: seq<string>, scheme: string, kid: string, systems: seq<DrmSystem>):
      (seq<Protection>, seq<string>)
  {
    if systems == [] then (ps, refs)
    else
      var n := |systems| - 1;
      var (before, held) := Attach(ps, refs, scheme, kid, systems[..n]);
      AttachOne(before, held, scheme, kid, systems[n])
  }

  method AttachContentProtection(ps: seq<Protection>, refs: seq<string>, scheme: string, kid: string,
                                 systems: seq<DrmSystem>) returns (entries: seq<Protection>, held: seq<string>)
    ensures (entries, held) == Attach(ps, refs, scheme, kid, systems)
  {
    entries, held := ps, refs;
    for n := 0 to |systems|
      invariant (entries, held) == Attach(ps, refs, scheme, kid, systems[..n])
    {
      var system := systems[n];
      assert systems[..n + 1][..n] == systems[..n];
      var i := 0;
      while i < |entries| && !(entries[i].systemId == system.systemId && entries[i].scheme == scheme)
        invariant 0 <= i <= FindEntry(entries, system.systemId, scheme)
      {
        i := i + 1;
      }
      assert i == FindEntry(entries, system.systemId, scheme);
      ghost var (qs, more) := AttachOne(entries, held, scheme, kid, system);
      if i == |entries| {
        entries := entries + [NewEntry(|entries|, scheme, kid, system)];
      } else if kid !in entries[i].defaultKids {
        entries := entries[i := entries[i].(defaultKids := entries[i].defaultKids + [kid])];
      } else {
        assert entries[i := entries[i].(defaultKids := entries[i].defaultKids)] == entries;
      }
      if entries[i].refId !in held {
        held := held + [entries[i].refId];
      }
      assert entries == qs && held == more;
    }
    assert systems[..|systems|] == systems;
  }

  // ---- what every sequence of attachments keeps

  /** Entries are numbered from 1 and no system and scheme appears twice. */
  ghost predicate Numbered(ps: seq<Protection>) {
    (forall i | 0 <= i < |ps| :: ps[i].refId == Decimal(i + 1)) &&
    forall i, j | 0 <= i < j < |ps| :: !(ps[i].systemId == ps[j].systemId && ps[i].scheme == ps[j].scheme)
  }

  ghost predicate Unique(xs: seq<string>) {
    forall i, j | 0 <= i < j < |xs| :: xs[i] != xs[j]
  }

  /** Later entries only add: same number, system and scheme, and no key is lost. */
  ghost predicate Extends(ps: seq<Protection>, qs: seq<Protection>) {
    |ps| <= |qs| &&
    forall i | 0 <= i < |ps| ::
      qs[i].(defaultKids := []) == ps[i].(defaultKids := []) && ps[i].defaultKids <= qs[i].defaultKids
  }

  /** Some referenced entry of this system and scheme carries the key. */
  ghost predicate Carries(ps: seq<Protection>, refs: seq<string>, scheme: string, kid: string, systemId: string) {
    exists i | 0 <= i < |ps| ::
      ps[i].systemId == systemId && ps[i].scheme == scheme && kid in ps[i].defaultKids && ps[i].refId in refs
  }

  ghost predicate AllResolve(refs: seq<string>, ps: seq<Protection>) {
    forall r | r in refs :: exists i | 0 <= i < |ps| :: ps[i].refId == r
  }

  lemma NumberedIsUnique(ps: seq<Protection>)
    requires Numbered(ps)
    ensures forall i, j | 0 <= i < j < |ps| :: ps[i].refId != ps[j].refId
  {
    forall i, j | 0 <= i < j < |ps|
      ensures ps[i].refId != ps[j].refId
    {
      if ps[i].refId == ps[j].refId {
        DecimalInjective(i + 1, j + 1);
      }
    }
  }

  lemma AttachOneEffect(ps: seq<Protection>, refs: seq<string>, scheme: string, kid: string, system: DrmSystem)
    requires Numbered(ps) && Unique(refs) && AllResolve(refs, ps)
    ensures var (qs, held) := AttachOne(ps, refs, scheme, kid, system);
      Numbered(qs) && Unique(held) && AllResolve(held, qs) && Extends(ps, qs) && refs <= held &&
      Carries(qs, held, scheme, kid, system.systemId)
  {
    hide Decimal;
    var (qs, held) := AttachOne(ps, refs, scheme, kid, system);
    var i := FindEntry(ps, system.systemId, scheme);
    assert kid in qs[i].defaultKids && qs[i].refId in held;
    forall r | r in held
      ensures exists j | 0 <= j < |qs| :: qs[j].refId == r
    {
      if r in refs {
        var j :| 0 <= j < |ps| && ps[j].refId == r;
        assert qs[j].refId == r;
      } else {
        assert qs[i].refId == r;
      }
    }
  }

  lemma CarriesLater(ps: seq<Protection>, refs: seq<string>, qs: seq<Protection>, held: seq<string>, scheme: string,
                     kid: string, systemId: string)
    requires Carries(ps, refs, scheme, kid, systemId) && Extends(ps, qs) && refs <= held
    ensures Carries(qs, held, scheme, kid, systemId)
  {
    var i :| 0 <= i < |ps| && ps[i].systemId == systemId && ps[i].scheme == scheme && kid in ps[i].defaultKids &&
      ps[i].refId in refs;
    assert qs[i].(defaultKids := []).systemId == systemId && qs[i].(defaultKids := []).scheme == scheme &&
      qs[i].(defaultKids := []).refId == ps[i].(defaultKids := []).refId;
    assert kid in qs[i].defaultKids[..|ps[i].defaultKids|];
  }

  /**
   * Attaching a track's protection: one entry per system and scheme, numbers stay
   * unique, every reference resolves, nothing another track relies on is lost, and
   * each system of the track carries its key.
   */
  lemma {:induction false} AttachEffect(ps: seq<Protection>, refs: seq<string>, scheme: string, kid: string,
                                        systems: seq<DrmSystem>)
    requires Numbered(ps) && Unique(refs) && AllResolve(refs, ps)
    ensures var (qs, held) := Attach(ps, refs, scheme, kid, systems);
      Numbered(qs) && Unique(held) && AllResolve(held, qs) && Extends(ps, qs) && refs <= held &&
      forall s | s in systems :: Carries(qs, held, scheme, kid, s.systemId)
  {
    hide Numbered, Unique, AllResolve, Carries, AttachOne;
    if systems != [] {
      var n := |systems| - 1;
      AttachEffect(ps, refs, scheme, kid, systems[..n]);
      var (before, held) := Attach(ps, refs, scheme, kid, systems[..n]);
      var (qs, more) := Attach(ps, refs, scheme, kid, systems);
      AttachOneEffect(before, held, scheme, kid, systems[n]);
      forall s | s in systems
        ensures Carries(qs, more, scheme, kid, s.systemId)
      {
        if s in systems[..n] {
          CarriesLater(before, held, qs, more, scheme, kid, s.systemId);
        }
      }
    }
  }

  // ---- what the entries say

  ghost predicate Asks(systems: seq<DrmSystem>, systemId: string) {
    exists k | 0 <= k < |systems| :: systems[k].systemId == systemId
  }

  /** The first of the systems with this id, whose init data a new entry takes. */
  ghost predicate IsFirstOf(systems: seq<DrmSystem>, s: DrmSystem) {
    exists k | 0 <= k < |systems| :: systems[k] == s && forall j | 0 <= j < k :: systems[j].systemId != s.systemId
  }

  /** An entry of the list from the start: the same but for the key, when a system of the track and its scheme ask for it. */
  ghost predicate OldEntry(p: Protection, q: Protection, scheme: string, kid: string, systems: seq<DrmSystem>) {
    if p.scheme == scheme && Asks(systems, p.systemId) && kid !in p.defaultKids then q == p.(defaultKids := p.defaultKids + [kid])
    else q == p
  }

  /** An entry that was added: of a system that had none under the scheme, with the one key and that system's init data. */
  ghost predicate AddedEntry(q: Protection, number: nat, scheme: string, kid: string, systems: seq<DrmSystem>) {
    q.refId == Decimal(number) && q.defaultKids == [kid] && q.scheme == scheme && q.laUrl.None? && q.certUrl.None? &&
    q.robustness.None? &&
    exists s: DrmSystem ::
      IsFirstOf(systems, s) && q.systemId == s.systemId && q.pssh == (if s.pssh == "" then None else Some(s.pssh))
  }

  ghost predicate EntriesSay(ps: seq<Protection>, qs: seq<Protection>, scheme: string, kid: string, systems: seq<DrmSystem>) {
    |ps| <= |qs| && (forall i | 0 <= i < |ps| :: OldEntry(ps[i], qs[i], scheme, kid, systems)) &&
    (forall i | |ps| <= i < |qs| :: AddedEntry(qs[i], i + 1, scheme, kid, systems))
  }

  /** The track refers to what it referred to, and to the entries of its systems and scheme. */
  ghost predicate RefersTo(qs: seq<Protection>, refs: seq<string>, held: seq<string>, scheme: string, systems: seq<DrmSystem>) {
    refs <= held &&
    (forall r | r in held[|refs|..] ::
       exists i | 0 <= i < |qs| :: qs[i].refId == r && qs[i].scheme == scheme && Asks(systems, qs[i].systemId)) &&
    (forall i | 0 <= i < |qs| && qs[i].scheme == scheme && Asks(systems, qs[i].systemId) :: qs[i].refId in held)
  }

  lemma AsksMore(systems: seq<DrmSystem>, s: DrmSystem, systemId: string)
    ensures Asks(systems + [s], systemId) <==> Asks(systems, systemId) || s.systemId == systemId
  {
    var all := systems + [s];
    assert all[|systems|] == s;
    if k :| 0 <= k < |systems| && systems[k].systemId == systemId {
      assert all[k] == systems[k];
    }
  }

  lemma FirstStays(systems: seq<DrmSystem>, s: DrmSystem, first: DrmSystem)
    requires IsFirstOf(systems, first)
    ensures IsFirstOf(systems + [s], first)
  {
    var all := systems + [s];
    var k :| 0 <= k < |systems| && systems[k] == first && forall j | 0 <= j < k :: systems[j].systemId != first.systemId;
    assert all[k] == first && forall j | 0 <= j < k :: all[j] == systems[j];
  }

  lemma FirstIsNew(systems: seq<DrmSystem>, s: DrmSystem)
    requires !Asks(systems, s.systemId)
    ensures IsFirstOf(systems + [s], s)
  {
    var all := systems + [s];
    assert all[|systems|] == s && forall j | 0 <= j < |systems| :: all[j] == systems[j];
  }

  /** What one more system does to an entry of before. */
  lemma EntryNext(ps: seq<Protection>, now: seq<Protection>, i: nat, scheme: string, kid: string,
                  systems: seq<DrmSystem>, s: DrmSystem)
    requires i < |now| && |ps| <= |now|
    requires if i < |ps| then OldEntry(ps[i], now[i], scheme, kid, systems) else AddedEntry(now[i], i + 1, scheme, kid, systems)
    ensures var q := if now[i].systemId == s.systemId && now[i].scheme == scheme
                     then now[i].(defaultKids := AppendNew(now[i].defaultKids, kid)) else now[i];
      if i < |ps| then OldEntry(ps[i], q, scheme, kid, systems + [s]) else AddedEntry(q, i + 1, scheme, kid, systems + [s])
  {
    hide Decimal, Asks, IsFirstOf;
    if i < |ps| {
      AsksMore(systems, s, ps[i].systemId);
    } else {
      var first :| IsFirstOf(systems, first) && now[i].systemId == first.systemId &&
        now[i].pssh == (if first.pssh == "" then None else Some(first.pssh));
      FirstStays(systems, s, first);
    }
  }

  lemma EntriesNext(ps: seq<Protection>, now: seq<Protection>, refs: seq<string>, scheme: string, kid: string,
                    systems: seq<DrmSystem>, s: DrmSystem)
    requires Numbered(now) && EntriesSay(ps, now, scheme, kid, systems)
    requires forall i | 0 <= i < |now| && now[i].systemId == s.systemId && now[i].scheme == scheme ::
      i == FindEntry(now, s.systemId, scheme)
    requires FindEntry(now, s.systemId, scheme) == |now| ==> !Asks(systems, s.systemId)
    ensures EntriesSay(ps, AttachOne(now, refs, scheme, kid, s).0, scheme, kid, systems + [s])
  {
    hide Decimal, Asks, IsFirstOf, OldEntry, AddedEntry, Numbered, AppendNew;
    var qs := AttachOne(now, refs, scheme, kid, s).0;
    forall i | 0 <= i < |now|
      ensures if i < |ps| then OldEntry(ps[i], qs[i], scheme, kid, systems + [s])
              else AddedEntry(qs[i], i + 1, scheme, kid, systems + [s])
    {
      EntryNext(ps, now, i, scheme, kid, systems, s);
    }
    if |qs| > |now| {
      FirstIsNew(systems, s);
      NewIsAdded(|now|, scheme, kid, systems, s);
    }
  }

  lemma NewIsAdded(count: nat, scheme: string, kid: string, systems: seq<DrmSystem>, s: DrmSystem)
    requires IsFirstOf(systems + [s], s)
    ensures AddedEntry(NewEntry(count, scheme, kid, s), count + 1, scheme, kid, systems + [s])
  {
    hide Decimal, IsFirstOf;
  }

  /**
   * Every entry after a track's systems are attached: what it was, with the key where a
   * system asks for it, or a new one that says exactly this; and nothing else is referred to.
   */
  lemma {:induction false} AttachExactly(ps: seq<Protection>, refs: seq<string>, scheme: string, kid: string,
                                         systems: seq<DrmSystem>)
    requires Numbered(ps)
    ensures var (qs, held) := Attach(ps, refs, scheme, kid, systems);
      Numbered(qs) && EntriesSay(ps, qs, scheme, kid, systems) && RefersTo(qs, refs, held, scheme, systems) &&
      forall s | s in systems :: FindEntry(qs, s.systemId, scheme) < |qs|
  {
    hide Decimal, Asks, IsFirstOf, Numbered, EntriesSay, RefersTo, AttachOne;
    if systems == [] {
      NothingAttached(ps, refs, scheme, kid);
    } else {
      var n := |systems| - 1;
      var before, s := systems[..n], systems[n];
      AttachExactly(ps, refs, scheme, kid, before);
      var (now, held) := Attach(ps, refs, scheme, kid, before);
      assert before + [s] == systems;
      OneOf(now, s.systemId, scheme);
      AskedIsThere(now, before, s, scheme);
      EntriesNext(ps, now, held, scheme, kid, before, s);
      RefersNext(now, refs, held, scheme, kid, before, s);
    }
  }

  lemma NothingAttached(ps: seq<Protection>, refs: seq<string>, scheme: string, kid: string)
    ensures EntriesSay(ps, ps, scheme, kid, []) && RefersTo(ps, refs, refs, scheme, [])
  {
  }

  lemma OneOf(now: seq<Protection>, systemId: string, scheme: string)
    requires Numbered(now)
    ensures forall i | 0 <= i < |now| && now[i].systemId == systemId && now[i].scheme == scheme ::
      i == FindEntry(now, systemId, scheme)
  {
    hide Decimal;
  }

  lemma AskedIsThere(now: seq<Protection>, before: seq<DrmSystem>, s: DrmSystem, scheme: string)
    requires forall x | x in before :: FindEntry(now, x.systemId, scheme) < |now|
    ensures FindEntry(now, s.systemId, scheme) == |now| ==> !Asks(before, s.systemId)
  {
    hide FindEntry;
  }

  lemma RefersNext(now: seq<Protection>, refs: seq<string>, held: seq<string>, scheme: string, kid: string,
                   systems: seq<DrmSystem>, s: DrmSystem)
    requires Numbered(now) && RefersTo(now, refs, held, scheme, systems)
    requires forall x | x in systems :: FindEntry(now, x.systemId, scheme) < |now|
    requires forall i | 0 <= i < |now| && now[i].systemId == s.systemId && now[i].scheme == scheme ::
      i == FindEntry(now, s.systemId, scheme)
    ensures var (qs, more) := AttachOne(now, held, scheme, kid, s);
      Numbered(qs) && RefersTo(qs, refs, more, scheme, systems + [s]) &&
      forall x | x in systems + [s] :: FindEntry(qs, x.systemId, scheme) < |qs|
  {
    hide Decimal, Asks;
    var (qs, more) := AttachOne(now, held, scheme, kid, s);
    var at := FindEntry(now, s.systemId, scheme);
    assert at < |qs| && qs[at].systemId == s.systemId && qs[at].scheme == scheme && qs[at].refId in more;
    assert forall i | 0 <= i < |now| :: qs[i].(defaultKids := []) == now[i].(defaultKids := []);
    forall i | 0 <= i < |qs|
      ensures Asks(systems + [s], qs[i].systemId) <==> Asks(systems, qs[i].systemId) || s.systemId == qs[i].systemId
    {
      AsksMore(systems, s, qs[i].systemId);
    }
    forall r | r in more[|refs|..]
      ensures exists i | 0 <= i < |qs| :: qs[i].refId == r && qs[i].scheme == scheme && Asks(systems + [s], qs[i].systemId)
    {
      if r in held[|refs|..] {
        var i :| 0 <= i < |now| && now[i].refId == r && now[i].scheme == scheme && Asks(systems, now[i].systemId);
        assert qs[i].refId == r;
      } else {
        assert qs[at].refId == r;
      }
    }
  }
}
