/**
 * The incremental top-level box reader: bytes go in as they arrive, whole boxes
 * come out as soon as they are complete.
 */
module BoxStream {
  import opened Bytes

  datatype TopBox = TopBox(kind: seq<Byte>, bytes: seq<Byte>)

  /** What the front of the unread bytes is: not yet decidable, malformed, or a whole box. */
  datatype Front = Wait | Malformed | Whole(size: nat)

  const CompactAbove := 65536

  function FrontOf(p: seq<Byte>): (f: Front)
    ensures f.Whole? ==> 8 <= f.size <= |p|
  {
    if |p| < 8 then Wait
    else
      var small := FromBE(p[..4]);
      if small == 1 then
        if |p| < 16 then Wait
        else
          var size := FromBE(p[8..16]);
          if size < 16 then Malformed else if |p| < size then Wait else Whole(size)
      else if small == 0 then Wait
      else if small < 8 then Malformed
      else if |p| < small then Wait
      else Whole(small)
  }

  function BoxAt(p: seq<Byte>, size: nat): TopBox
    requires 8 <= size <= |p|
  {
    TopBox(p[4..8], p[..size])
  }

  datatype Reader = Reader(boxes: seq<TopBox>, pending: seq<Byte>, broken: bool)

  const FreshReader := Reader([], [], false)

  /** Taking boxes until the front is not whole. */
  function TakeBoxes(r: Reader): Reader
    decreases |r.pending|, if r.broken then 0 else 1
  {
    if r.broken then r
    else
      match FrontOf(r.pending)
      case Wait => r
      case Malformed => r.(broken := true)
      case Whole(size) => TakeBoxes(Reader(r.boxes + [BoxAt(r.pending, size)], r.pending[size..], false))
  }

  /** One `append` followed by the loop over `next_box`. */
  function Feed(r: Reader, bytes: seq<Byte>): Reader {
    if r.broken then r else TakeBoxes(r.(pending := r.pending + bytes))
  }

  datatype Outcome = NoBox | Got(box: TopBox) | Threw

  class StreamingMp4Reader {
    var buffer: seq<Byte>
    var consumed: nat

    /** Consumed bytes are dropped before they exceed 64 KiB. */
    predicate Valid()
      reads this
    {
      consumed <= |buffer| && consumed <= CompactAbove
    }

    function Pending(): seq<Byte>
      reads this
      requires Valid()
    {
      buffer[consumed..]
    }

    constructor ()
      ensures Valid() && Pending() == []
    {
      buffer, consumed := [], 0;
    }

    method Append(bytes: seq<Byte>)
      requires Valid()
      modifies this
      ensures Valid() && Pending() == old(Pending()) + bytes
    {
      buffer := buffer + bytes;
    }

    method ReadBE64(at: nat) returns (value: nat)
      requires at + 8 <= |buffer|
      ensures value == FromBE(buffer[at..at + 8])
    {
      value := 0;
      for i := 0 to 8
        invariant value == FromBE(buffer[at..at + i])
      {
        assert buffer[at..at + i + 1][..i] == buffer[at..at + i];
        value := value * 256 + buffer[at + i];
      }
    }

    method NextBox() returns (outcome: Outcome)
      requires Valid()
      modifies this
      ensures Valid()
      ensures match FrontOf(old(Pending()))
        case Wait => outcome == NoBox && Pending() == old(Pending())
        case Malformed => outcome == Threw && Pending() == old(Pending())
        case Whole(size) => outcome == Got(BoxAt(old(Pending()), size)) && Pending() == old(Pending())[size..]
    {
      var available := |buffer| - consumed;
      if available < 8 {
        return NoBox;
      }
      ghost var p := Pending();
      assert p[..4] == buffer[consumed..consumed + 4];
      var small := FromBE(buffer[consumed..consumed + 4]);
      var kind := buffer[consumed + 4..consumed + 8];
      assert p[4..8] == kind;
      var size := small;
      if small == 1 {
        if available < 16 {
          return NoBox;
        }
        size := ReadBE64(consumed + 8);
        assert p[8..16] == buffer[consumed + 8..consumed + 16];
        if size < 16 {
          return Threw;
        }
      } else if small == 0 {
        return NoBox;
      } else if small < 8 {
        return Threw;
      }
      if available < size {
        return NoBox;
      }
      assert FrontOf(p) == Whole(size);
      outcome := Got(TopBox(kind, buffer[consumed..consumed + size]));
      assert p[..size] == buffer[consumed..consumed + size] && p[size..] == buffer[consumed + size..];
      consumed := consumed + size;
      if consumed > CompactAbove {
        Compact();
      }
    }

    method Compact()
      requires consumed <= |buffer|
      modifies this
      ensures Valid() && consumed == 0 && buffer == old(buffer[consumed..])
    {
      buffer := buffer[consumed..];
      consumed := 0;
    }

    /** The ingest loop: append, then take boxes until there is none. */
    method Ingest(bytes: seq<Byte>, ghost r: Reader) returns (boxes: seq<TopBox>, threw: bool)
      requires Valid() && r.pending == Pending() && !r.broken
      modifies this
      ensures Valid() && Feed(r, bytes) == Reader(r.boxes + boxes, Pending(), threw)
    {
      hide FrontOf;
      Append(bytes);
      boxes, threw := [], false;
      assert r.boxes + [] == r.boxes;
      while true
        invariant Valid()
        invariant TakeBoxes(Reader(r.boxes + boxes, Pending(), false)) == Feed(r, bytes)
        decreases |Pending()|
      {
        var outcome := NextBox();
        match outcome
        case NoBox => return;
        case Threw => threw := true; return;
        case Got(box) =>
          assert r.boxes + boxes + [box] == r.boxes + (boxes + [box]);
          boxes := boxes + [box];
      }
    }
  }

  // ---- cutting the input

  /** Readers a consumer cannot tell apart: a broken one is not read again. */
  ghost predicate SameReader(a: Reader, b: Reader) {
    a.boxes == b.boxes && a.broken == b.broken && (!a.broken ==> a == b)
  }

  lemma FrontWithMore(p: seq<Byte>, more: seq<Byte>)
    ensures FrontOf(p).Malformed? ==> FrontOf(p + more).Malformed?
    ensures FrontOf(p).Whole? ==> FrontOf(p + more) == FrontOf(p)
  {
    if |p| >= 8 {
      assert (p + more)[..4] == p[..4];
    }
    if |p| >= 16 {
      assert (p + more)[8..16] == p[8..16];
    }
  }

  lemma {:induction false} TakeThenMore(r: Reader, more: seq<Byte>)
    requires !r.broken
    ensures SameReader(TakeBoxes(r.(pending := r.pending + more)), Feed(TakeBoxes(r), more))
    decreases |r.pending|
  {
    hide FrontOf;
    FrontWithMore(r.pending, more);
    var all := r.pending + more;
    match FrontOf(r.pending)
    case Wait =>
    case Malformed =>
    case Whole(size) =>
      assert all[..size] == r.pending[..size] && all[4..8] == r.pending[4..8] && all[size..] == r.pending[size..] + more;
      TakeThenMore(Reader(r.boxes + [BoxAt(r.pending, size)], r.pending[size..], false), more);
  }

  /** Feeding two pieces gives what feeding them joined gives. */
  lemma FeedTwice(r: Reader, a: seq<Byte>, b: seq<Byte>)
    ensures SameReader(Feed(r, a + b), Feed(Feed(r, a), b))
  {
    if !r.broken {
      assert r.pending + (a + b) == r.pending + a + b;
      TakeThenMore(r.(pending := r.pending + a), b);
    }
  }

  // ---- nothing is lost, and boxes come back

  function BytesOf(boxes: seq<TopBox>): seq<Byte> {
    if boxes == [] then [] else BytesOf(boxes[..|boxes| - 1]) + boxes[|boxes| - 1].bytes
  }

  /** Yielded plus unread bytes equal the input. */
  lemma {:induction false} NothingLost(r: Reader)
    ensures BytesOf(TakeBoxes(r).boxes) + TakeBoxes(r).pending == BytesOf(r.boxes) + r.pending
    decreases |r.pending|, if r.broken then 0 else 1
  {
    hide FrontOf;
    if !r.broken && FrontOf(r.pending).Whole? {
      var size := FrontOf(r.pending).size;
      var box := BoxAt(r.pending, size);
      var next := Reader(r.boxes + [box], r.pending[size..], false);
      NothingLost(next);
      assert next.boxes[..|r.boxes|] == r.boxes;
      assert r.pending == box.bytes + r.pending[size..];
      assert BytesOf(r.boxes) + r.pending == BytesOf(r.boxes) + box.bytes + r.pending[size..];
    }
  }

  /** A box under a 32-bit size, or under a 64-bit one behind its type. */
  ghost predicate Written(b: TopBox, body: seq<Byte>) {
    |b.kind| == 4 &&
    ((8 + |body| <= MaxU32 && b.bytes == BE(4, 8 + |body|) + b.kind + body) ||
     (16 + |body| <= MaxU64 && b.bytes == BE(4, 1) + b.kind + BE(8, 16 + |body|) + body))
  }

  ghost predicate WholeBox(b: TopBox) {
    exists body :: Written(b, body)
  }

  /** These bytes start with a whole box. */
  ghost predicate StartsWhole(p: seq<Byte>, b: TopBox) {
    WholeBox(b) && b.bytes <= p
  }

  /** A size that leaves no room for its own header. */
  ghost predicate StartsBad(p: seq<Byte>) {
    |p| >= 8 && (2 <= FromBE(p[..4]) < 8 || (FromBE(p[..4]) == 1 && |p| >= 16 && FromBE(p[8..16]) < 16))
  }

  lemma WrittenFront(b: TopBox, body: seq<Byte>)
    requires Written(b, body)
    ensures FrontOf(b.bytes) == Whole(|b.bytes|) && b.kind == b.bytes[4..8]
  {
    hide BE, FromBE;
    Pow256Values();
    if b.bytes == BE(4, 1) + b.kind + BE(8, 16 + |body|) + body {
      ReadBackBE(4, 1);
      ReadBackBE(8, 16 + |body|);
      assert b.bytes[..4] == BE(4, 1) && b.bytes[4..8] == b.kind && b.bytes[8..16] == BE(8, 16 + |body|);
    }
    if 8 + |body| <= MaxU32 && b.bytes == BE(4, 8 + |body|) + b.kind + body {
      ReadBackBE(4, 8 + |body|);
      assert b.bytes[..4] == BE(4, 8 + |body|) && b.bytes[4..8] == b.kind;
    }
  }

  lemma FrontWritten(p: seq<Byte>)
    requires FrontOf(p).Whole?
    ensures WholeBox(BoxAt(p, FrontOf(p).size))
  {
    hide BE, FromBE;
    var n := FrontOf(p).size;
    var b := BoxAt(p, n);
    Pow256Values();
    RewriteBE(p[..4]);
    FromBEBound(p[..4]);
    if FromBE(p[..4]) == 1 {
      RewriteBE(p[8..16]);
      FromBEBound(p[8..16]);
      assert p[..n] == p[..4] + p[4..8] + p[8..16] + p[16..n];
      assert Written(b, p[16..n]);
    } else {
      assert p[..n] == p[..4] + p[4..8] + p[8..n];
      assert Written(b, p[8..n]);
    }
  }

  /** The front of the bytes is a box exactly when they start with one, and malformed exactly when its size is impossible. */
  lemma FrontExactly(p: seq<Byte>)
    ensures FrontOf(p).Whole? <==> exists b :: StartsWhole(p, b)
    ensures forall b | StartsWhole(p, b) :: FrontOf(p) == Whole(|b.bytes|) && b == BoxAt(p, |b.bytes|)
    ensures FrontOf(p).Malformed? <==> StartsBad(p)
  {
    hide BE, FromBE;
    forall b | StartsWhole(p, b)
      ensures FrontOf(p) == Whole(|b.bytes|) && b == BoxAt(p, |b.bytes|)
    {
      BoxInFront(p, b);
    }
    if FrontOf(p).Whole? {
      FrontWritten(p);
      assert StartsWhole(p, BoxAt(p, FrontOf(p).size));
    }
    if StartsBad(p) && FrontOf(p).Whole? {
      BadIsNotWhole(p);
    }
  }

  lemma BoxInFront(p: seq<Byte>, b: TopBox)
    requires StartsWhole(p, b)
    ensures FrontOf(p) == Whole(|b.bytes|) && b == BoxAt(p, |b.bytes|)
  {
    hide FrontOf, Written;
    var body :| Written(b, body);
    WrittenFront(b, body);
    assert p == b.bytes + p[|b.bytes|..];
    FrontWithMore(b.bytes, p[|b.bytes|..]);
    assert p[4..8] == b.bytes[4..8];
  }

  lemma BadIsNotWhole(p: seq<Byte>)
    requires StartsBad(p)
    ensures FrontOf(p).Malformed?
  {
    hide FromBE;
  }

  /**
   * What is taken out of some bytes: whole boxes, one behind the other, until no whole box
   * is in front; and the reader is broken exactly when what is left starts with a bad size.
   */
  lemma {:induction false} TakesExactly(s: seq<Byte>, done: seq<TopBox>, boxes: seq<TopBox>, rest: seq<Byte>, broken: bool)
    ensures TakeBoxes(Reader(done, s, false)) == Reader(done + boxes, rest, broken) <==>
      (forall b | b in boxes :: WholeBox(b)) && s == Flat(boxes) + rest && (forall b :: !StartsWhole(rest, b)) &&
      (broken <==> StartsBad(rest))
    decreases |s|, |boxes|
  {
    hide FrontOf, StartsBad, WholeBox;
    FrontExactly(s);
    if boxes == [] {
      assert done + boxes == done && Flat(boxes) + rest == rest;
      if FrontOf(s).Whole? {
        OneTaken(s, done, [], rest, broken);
      }
    } else {
      OneTaken(s, done, boxes, rest, broken);
      var first, more := boxes[0], boxes[1..];
      assert Flat(boxes) + rest == first.bytes + (Flat(more) + rest);
      if FrontOf(s).Whole? && first == BoxAt(s, FrontOf(s).size) {
        var left := s[FrontOf(s).size..];
        assert s == first.bytes + left;
        assert done + [first] + more == done + boxes;
        TakesExactly(left, done + [first], more, rest, broken);
      }
    }
  }

  /** The first step of taking boxes, and that a later step never loses a box already taken. */
  lemma OneTaken(s: seq<Byte>, done: seq<TopBox>, boxes: seq<TopBox>, rest: seq<Byte>, broken: bool)
    ensures FrontOf(s).Whole? ==>
      var b := BoxAt(s, FrontOf(s).size);
      TakeBoxes(Reader(done, s, false)) == TakeBoxes(Reader(done + [b], s[FrontOf(s).size..], false)) &&
      (TakeBoxes(Reader(done, s, false)).boxes == done + boxes ==> boxes != [] && boxes[0] == b)
    ensures !FrontOf(s).Whole? ==> TakeBoxes(Reader(done, s, false)).boxes == done
  {
    hide FrontOf;
    if FrontOf(s).Whole? {
      var b, left := BoxAt(s, FrontOf(s).size), s[FrontOf(s).size..];
      TakenStay(Reader(done + [b], left, false));
      if TakeBoxes(Reader(done, s, false)).boxes == done + boxes {
        assert (done + [b])[|done|] == b;
        assert |done + boxes| >= |done| + 1 && (done + boxes)[|done|] == b;
      }
    }
  }

  lemma {:induction false} TakenStay(r: Reader)
    ensures r.boxes <= TakeBoxes(r).boxes
    decreases |r.pending|, if r.broken then 0 else 1
  {
    hide FrontOf;
    if !r.broken && FrontOf(r.pending).Whole? {
      var size := FrontOf(r.pending).size;
      TakenStay(Reader(r.boxes + [BoxAt(r.pending, size)], r.pending[size..], false));
    }
  }

  lemma {:induction false} BoxesComeBack(boxes: seq<TopBox>, r: Reader, done: seq<TopBox>)
    requires forall b | b in boxes :: WholeBox(b)
    requires r == Reader(done, Flat(boxes), false)
    ensures TakeBoxes(r) == Reader(done + boxes, [], false)
    decreases |boxes|
  {
    hide FrontOf;
    if boxes == [] {
      NothingWaits();
      assert done + boxes == done;
    } else {
      var b, rest := boxes[0], Flat(boxes[1..]);
      assert b in boxes;
      var body :| Written(b, body);
      WrittenFront(b, body);
      FrontWithMore(b.bytes, rest);
      var n := |b.bytes|;
      assert r.pending[..n] == b.bytes && r.pending[4..8] == b.bytes[4..8] && r.pending[n..] == rest;
      BoxesComeBack(boxes[1..], Reader(done + [b], rest, false), done + [b]);
      assert done + [b] + boxes[1..] == done + boxes;
    }
  }

  lemma NothingWaits()
    ensures FrontOf([]) == Wait
  {
  }

  function Flat(boxes: seq<TopBox>): seq<Byte>
    decreases |boxes|
  {
    if boxes == [] then [] else boxes[0].bytes + Flat(boxes[1..])
  }
}
