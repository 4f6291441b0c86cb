/** How far a looped cycle is moved: microseconds to media ticks, rounded to the nearest. */
module LoopOffset {
  import opened Bytes

  const MicrosecondsPerSecond := 1000000

  /** `loop_offset_ticks`, with the 64-bit arithmetic of the source. */
  function Ticks(cycleUs: nat, cycle: nat, timescale: nat): nat {
    var elapsed := cycleUs * cycle % TwoTo64;
    var seconds, rest := elapsed / MicrosecondsPerSecond, elapsed % MicrosecondsPerSecond;
    (seconds * timescale % TwoTo64 + (rest * timescale + MicrosecondsPerSecond / 2) / MicrosecondsPerSecond) % TwoTo64
  }

  lemma Unwrapped(x: nat)
    requires x < TwoTo64
    ensures x % TwoTo64 == x
  {
  }

  /** The offset in exact arithmetic: the nearest tick, halves upwards. */
  function Nearest(elapsedUs: nat, timescale: nat): nat {
    (elapsedUs * timescale + 500000) / MicrosecondsPerSecond
  }

  lemma SplitProduct(elapsed: nat, timescale: nat)
    ensures elapsed * timescale ==
      MicrosecondsPerSecond * (elapsed / MicrosecondsPerSecond * timescale) +
      elapsed % MicrosecondsPerSecond * timescale
  {
    var q, r := elapsed / MicrosecondsPerSecond, elapsed % MicrosecondsPerSecond;
    assert elapsed == MicrosecondsPerSecond * q + r;
    assert (MicrosecondsPerSecond * q + r) * timescale == MicrosecondsPerSecond * q * timescale + r * timescale;
    assert MicrosecondsPerSecond * q * timescale == MicrosecondsPerSecond * (q * timescale);
  }

  /** Converting seconds and the rest apart loses nothing: the result is the nearest tick to the exact offset. */
  lemma TicksIsNearest(cycleUs: nat, cycle: nat, timescale: nat)
    requires cycleUs * cycle < TwoTo64 && Nearest(cycleUs * cycle, timescale) < TwoTo64
    ensures Ticks(cycleUs, cycle, timescale) == Nearest(cycleUs * cycle, timescale)
    ensures -500000 <= MicrosecondsPerSecond * Ticks(cycleUs, cycle, timescale) - cycleUs * cycle * timescale <= 500000
  {
    var elapsed := cycleUs * cycle;
    var q, r := elapsed / MicrosecondsPerSecond, elapsed % MicrosecondsPerSecond;
    SplitProduct(elapsed, timescale);
    var rest := r * timescale + 500000;
    var whole := q * timescale;
    DivModUnique(elapsed * timescale + 500000, MicrosecondsPerSecond, whole + rest / MicrosecondsPerSecond,
                 rest % MicrosecondsPerSecond);
    Unwrapped(elapsed);
    Unwrapped(whole);
    Unwrapped(whole + rest / MicrosecondsPerSecond);
  }

  /** A later cycle is never moved less than an earlier one. */
  lemma CyclesAdvance(cycleUs: nat, cycle: nat, later: nat, timescale: nat)
    requires cycle <= later && cycleUs * later < TwoTo64 && Nearest(cycleUs * later, timescale) < TwoTo64
    ensures Ticks(cycleUs, cycle, timescale) <= Ticks(cycleUs, later, timescale)
  {
    ProductGrows(cycleUs, cycle, later);
    var a, b := cycleUs * cycle, cycleUs * later;
    ProductGrows(timescale, a, b);
    NearestGrows(a * timescale + 500000, b * timescale + 500000);
    TicksIsNearest(cycleUs, cycle, timescale);
    TicksIsNearest(cycleUs, later, timescale);
  }

  lemma ProductGrows(k: nat, x: nat, y: nat)
    requires x <= y
    ensures k * x <= k * y
  {
    assert k * (y - x) >= 0;
  }

  lemma NearestGrows(x: nat, y: nat)
    requires x <= y
    ensures x / MicrosecondsPerSecond <= y / MicrosecondsPerSecond
  {
  }
}
