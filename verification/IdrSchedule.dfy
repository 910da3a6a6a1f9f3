/**
  Periodic IDR slots (stream_server/src/compressed_recorder.c, 564-665). Stream `id` of
  `maxStreams` asks for an IDR at times congruent to its offset modulo the interval.
  The loops below compute in 64-bit arithmetic that wraps, as the C code does.
 */
module IdrSchedule {
  import opened Bytes

  const NS_PER_SEC := 1_000_000_000
  const MIN_GAP := 2 * NS_PER_SEC
  const UINT32_LIMIT := 0x1_0000_0000
  /** Monotonic clock readings stay below 2^63 ns, about 292 years. */
  const CLOCK_LIMIT := 0x8000_0000_0000_0000

  function Add64(a: nat, b: nat): nat {
    (a + b) % TWO_TO_THE_64
  }

  function Mul64(a: nat, b: nat): nat {
    (a * b) % TWO_TO_THE_64
  }

  lemma Add64Exact(a: nat, b: nat)
    requires a + b < TWO_TO_THE_64
    ensures Add64(a, b) == a + b
  {
  }

  function IntervalNs(intervalSec: nat): nat {
    intervalSec * NS_PER_SEC
  }

  /** The stream's place in the interval; the product wraps for very long intervals. */
  function Offset(interval: nat, maxStreams: nat, id: nat): nat {
    var spread := if maxStreams > 0 then maxStreams else 1;
    var index := if id > 0 then id - 1 else 0;
    Mul64(index, interval) / spread
  }

  /** The least time at or after `from` that is congruent to `offset`. */
  function Slot(interval: nat, offset: nat, from: nat): (t: nat)
    requires interval > 0
  {
    from + (offset - from) % interval
  }

  /** The next slot after `next` that lies beyond `now`. */
  function CatchUp(interval: nat, next: nat, now: nat): nat
    requires interval > 0 && next <= now
  {
    next + interval * ((now - next) / interval + 1)
  }

  // ---------- division facts ----------

  lemma {:induction false} Quotient(k: int, m: int, r: int)
    requires m > 0 && 0 <= r < m
    ensures (k * m + r) / m == k && (k * m + r) % m == r
  {
    var x := k * m + r;
    var d := x / m - k;
    assert x == (x / m) * m + x % m;
    assert d * m == r - x % m by {
      assert (x / m) * m - k * m == d * m;
    }
    if d > 0 { MulMono(1, d, m); } else if d < 0 { MulMono(d, -1, m); }
  }

  lemma {:induction false} ModShift(x: int, j: int, m: int)
    requires m > 0
    ensures (x + j * m) % m == x % m
  {
    Quotient(x / m + j, m, x % m);
    assert x + j * m == (x / m + j) * m + x % m;
  }

  lemma {:induction false} MulMono(a: int, b: int, m: int)
    requires a <= b && m >= 0
    ensures a * m <= b * m
  {
  }

  /** Two congruent times less than one interval apart are equal. */
  lemma {:induction false} SameSlot(t: int, u: int, m: int)
    requires m > 0 && t % m == u % m && t <= u < t + m
    ensures t == u
  {
    assert t == (t / m) * m + t % m && u == (u / m) * m + u % m;
    var d := u / m - t / m;
    assert u - t == d * m;
    if d > 0 { MulMono(1, d, m); } else if d < 0 { MulMono(d, -1, m); }
  }

  // ---------- what Slot means ----------

  lemma {:induction false} SlotHolds(interval: nat, offset: nat, from: nat)
    requires interval > 0 && offset < interval
    ensures var t := Slot(interval, offset, from);
      from <= t < from + interval && t % interval == offset
  {
    var x := offset - from;
    var j := x / interval;
    assert x == j * interval + x % interval;
    assert Slot(interval, offset, from) == offset + (-j) * interval by {
      assert (-j) * interval == -(j * interval);
    }
    ModShift(offset, -j, interval);
    Quotient(0, interval, offset);
  }

  /** `Slot` is the least congruent time, and the only one within an interval of `from`. */
  lemma {:induction false} SlotIsLeast(interval: nat, offset: nat, from: nat, t: nat)
    requires interval > 0 && offset < interval
    ensures t == Slot(interval, offset, from) <==>
      && from <= t && t % interval == offset
      && forall u :: from <= u && u % interval == offset ==> t <= u
  {
    SlotHolds(interval, offset, from);
    var s := Slot(interval, offset, from);
    forall u | from <= u && u % interval == offset ensures s <= u {
      if u < s { SameSlot(u, s, interval); }
    }
  }

  lemma {:induction false} SlotUnique(interval: nat, offset: nat, from: nat, t: nat)
    requires interval > 0 && offset < interval
    requires from <= t < from + interval && t % interval == offset
    ensures t == Slot(interval, offset, from)
  {
    SlotHolds(interval, offset, from);
    var s := Slot(interval, offset, from);
    if t <= s { SameSlot(t, s, interval); } else { SameSlot(s, t, interval); }
  }

  lemma {:induction false} CatchUpHolds(interval: nat, next: nat, now: nat)
    requires interval > 0 && next <= now
    ensures var t := CatchUp(interval, next, now);
      now < t <= now + interval && t % interval == next % interval
  {
    var k := (now - next) / interval;
    assert now - next == k * interval + (now - next) % interval;
    assert interval * (k + 1) == k * interval + interval;
    ModShift(next, k + 1, interval);
    assert (k + 1) * interval == interval * (k + 1);
  }

  // ---------- the loops ----------

  lemma {:induction false} OffsetInInterval(interval: nat, maxStreams: nat, id: nat)
    requires interval > 0 && 1 <= id <= maxStreams
    ensures Offset(interval, maxStreams, id) < interval
  {
    var p := Mul64(id - 1, interval);
    assert 0 <= (id - 1) * interval;
    ModAtMost((id - 1) * interval, TWO_TO_THE_64);
    MulMono(id - 1, maxStreams - 1, interval);
    assert (maxStreams - 1) * interval == maxStreams * interval - interval;
    assert p < maxStreams * interval;
    DivBelow(p, interval, maxStreams);
  }

  lemma ModAtMost(x: nat, m: nat)
    requires m > 0
    ensures x % m <= x
  {
  }

  lemma {:induction false} DivBelow(x: nat, a: nat, n: nat)
    requires n > 0 && x < n * a
    ensures x / n < a
  {
    assert x == (x / n) * n + x % n;
    if x / n >= a { MulMono(a, x / n, n); }
  }

  /**
    `recorder_next_periodic_idr_ns`: starts from the interval that `now` lies in and steps on
    until two seconds have passed. It ends, wraps nowhere, and returns the least such slot.
   */
  method NextPeriodicIdr(intervalSec: nat, maxStreams: nat, id: nat, now: nat) returns (next: nat)
    requires 0 < intervalSec < UINT32_LIMIT && 1 <= id <= maxStreams && now < CLOCK_LIMIT
    ensures var interval := IntervalNs(intervalSec);
      next == Slot(interval, Offset(interval, maxStreams, id), now + MIN_GAP)
    ensures 0 < next < TWO_TO_THE_64
  {
    hide Slot, Offset, IntervalNs, Mul64, Add64, OnGrid;
    var interval := IntervalNs(intervalSec);
    var offset := Offset(interval, maxStreams, id);
    IntervalBounds(intervalSec);
    OffsetInInterval(interval, maxStreams, id);
    var base := Mul64(now / interval, interval);
    var first := Add64(base, offset);
    var least := Add64(now, MIN_GAP);
    StartOnGrid(interval, offset, now);
    next := StepTo(first, least, interval, offset);
    GridSlot(interval, offset, now + MIN_GAP, next);
  }

  lemma IntervalBounds(intervalSec: nat)
    requires 0 < intervalSec < UINT32_LIMIT
    ensures 0 < IntervalNs(intervalSec) < UINT32_LIMIT * NS_PER_SEC
  {
  }

  lemma StartOnGrid(interval: nat, offset: nat, now: nat)
    requires 0 < interval < UINT32_LIMIT * NS_PER_SEC && offset < interval && now < CLOCK_LIMIT
    ensures var first := Add64(Mul64(now / interval, interval), offset);
      OnGrid(first, interval, offset) && first < now + interval
    ensures Add64(now, MIN_GAP) == now + MIN_GAP
  {
    var base := Mul64(now / interval, interval);
    BaseBelow(now, interval, offset);
    hide Mul64, OnGrid;
    Add64Exact(base, offset);
    Add64Exact(now, MIN_GAP);
  }

  predicate OnGrid(t: nat, interval: nat, offset: nat)
    requires interval > 0
  {
    t % interval == offset
  }

  lemma GridStep(t: nat, interval: nat, offset: nat)
    requires interval > 0 && OnGrid(t, interval, offset)
    ensures OnGrid(t + interval, interval, offset)
  {
    ModStep(t, interval);
  }

  lemma GridSlot(interval: nat, offset: nat, from: nat, t: nat)
    requires interval > 0 && offset < interval
    requires from <= t < from + interval && OnGrid(t, interval, offset)
    ensures t == Slot(interval, offset, from)
  {
    SlotUnique(interval, offset, from, t);
  }

  /** The while loop: the first time on the grid at or after `least`. */
  method StepTo(start: nat, least: nat, interval: nat, offset: nat) returns (next: nat)
    requires interval > 0 && OnGrid(start, interval, offset)
    requires start < least + interval && least + interval < TWO_TO_THE_64
    ensures OnGrid(next, interval, offset) && least <= next < least + interval
  {
    hide OnGrid, Add64;
    next := start;
    while next < least
      invariant OnGrid(next, interval, offset) && next < least + interval
      decreases least - next
    {
      GridStep(next, interval, offset);
      Add64Exact(next, interval);
      next := Add64(next, interval);
    }
  }

  lemma {:induction false} BaseBelow(now: nat, interval: nat, offset: nat)
    requires interval > 0 && offset < interval && now < CLOCK_LIMIT
    ensures Mul64(now / interval, interval) <= now
    ensures OnGrid(Mul64(now / interval, interval) + offset, interval, offset)
  {
    var q := now / interval;
    assert now == q * interval + now % interval;
    assert Mul64(q, interval) == q * interval;
    Quotient(q, interval, offset);
  }

  lemma ModStep(x: nat, m: nat)
    requires m > 0
    ensures (x + m) % m == x % m
  {
    ModShift(x, 1, m);
  }

  /** The do-while loop that ends `recorder_maybe_request_periodic_idr`. */
  method StepPast(intervalSec: nat, start: nat, now: nat) returns (next: nat)
    requires 0 < intervalSec < UINT32_LIMIT && start <= now < CLOCK_LIMIT
    ensures next == CatchUp(IntervalNs(intervalSec), start, now)
    ensures next < TWO_TO_THE_64
  {
    var interval := IntervalNs(intervalSec);
    CatchUpHolds(interval, start, now);
    assert interval < UINT32_LIMIT * NS_PER_SEC;
    hide CatchUp, IntervalNs, Add64;
    next := start;
    while true
      invariant start <= next <= now && next % interval == start % interval
      decreases now - next
    {
      ModStep(next, interval);
      Add64Exact(next, interval);
      next := Add64(next, interval);
      if !(next <= now) { break; }
    }
    assert now < next <= now + interval;
    var t := CatchUp(interval, start, now);
    if t <= next { SameSlot(t, next, interval); } else { SameSlot(next, t, interval); }
  }

  // ---------- slots of different streams ----------

  /** The product does not wrap, so the offsets are evenly spread. */
  predicate OffsetsExact(interval: nat, maxStreams: nat) {
    (maxStreams - 1) * interval < TWO_TO_THE_64
  }

  lemma {:induction false} OffsetExact(interval: nat, maxStreams: nat, id: nat)
    requires 1 <= id <= maxStreams && OffsetsExact(interval, maxStreams)
    ensures Offset(interval, maxStreams, id) == ((id - 1) * interval) / maxStreams
  {
    MulMono(id - 1, maxStreams - 1, interval);
    assert 0 <= (id - 1) * interval;
  }

  /** Every configuration up to 72340172 seconds is exact, whatever the number of streams. */
  lemma {:induction false} ShortIntervalsAreExact(intervalSec: nat, maxStreams: nat)
    requires intervalSec <= 72_340_172 && 1 <= maxStreams <= 256
    ensures OffsetsExact(IntervalNs(intervalSec), maxStreams)
  {
    MulMono(maxStreams - 1, 255, IntervalNs(intervalSec));
    MulMono(IntervalNs(intervalSec), IntervalNs(72_340_172), 255);
  }

  lemma {:induction false} FloorSuper(a: nat, b: nat, n: nat)
    requires n > 0
    ensures a / n + b / n <= (a + b) / n
  {
    var q := a / n + b / n;
    assert a + b == q * n + (a % n + b % n) by {
      assert a == (a / n) * n + a % n && b == (b / n) * n + b % n;
      assert q * n == (a / n) * n + (b / n) * n;
    }
    var c := (a + b) / n;
    assert a + b == c * n + (a + b) % n;
    assert (c + 1) * n == c * n + n;
    if c < q { MulMono(c + 1, q, n); }
  }

  lemma {:induction false} FloorMono(a: nat, b: nat, n: nat)
    requires n > 0 && a <= b
    ensures a / n <= b / n
  {
    FloorSuper(a, b - a, n);
    assert (b - a) / n >= 0;
  }

  /** Offsets of two streams differ by a share of the interval, in both directions round it. */
  lemma {:induction false} OffsetsApart(interval: nat, n: nat, i: nat, j: nat)
    requires n > 0 && 0 <= i < j < n
    ensures (i * interval) / n + interval / n <= (j * interval) / n
    ensures (j * interval) / n + interval / n <= (i * interval) / n + interval
  {
    NextShare(interval, n, i);
    MulMono(i + 1, j, interval);
    FloorMono((i + 1) * interval, j * interval, n);
    NextShare(interval, n, j);
    MulMono(j + 1, n + i, interval);
    FloorMono((j + 1) * interval, (n + i) * interval, n);
    FullTurn(interval, n, i);
  }

  lemma NextShare(interval: nat, n: nat, i: nat)
    requires n > 0
    ensures (i * interval) / n + interval / n <= ((i + 1) * interval) / n
  {
    FloorSuper(i * interval, interval, n);
    assert i * interval + interval == (i + 1) * interval;
  }

  lemma FullTurn(interval: nat, n: nat, i: nat)
    requires n > 0
    ensures ((n + i) * interval) / n == interval + (i * interval) / n
  {
    assert (n + i) * interval == interval * n + i * interval;
    AddMultiple(i * interval, interval, n);
  }

  lemma {:induction false} AddMultiple(a: nat, k: nat, n: nat)
    requires n > 0
    ensures (k * n + a) / n == k + a / n
  {
    assert a == (a / n) * n + a % n;
    assert k * n + a == (k + a / n) * n + a % n;
    Quotient(k + a / n, n, a % n);
  }

  lemma {:induction false} OffsetsSpread(interval: nat, maxStreams: nat, i: nat, j: nat)
    requires interval > 0 && 1 <= i < j <= maxStreams && OffsetsExact(interval, maxStreams)
    ensures var o := Offset(interval, maxStreams, i);
      var p := Offset(interval, maxStreams, j);
      o + interval / maxStreams <= p && p + interval / maxStreams <= o + interval
  {
    OffsetExact(interval, maxStreams, i);
    OffsetExact(interval, maxStreams, j);
    OffsetsApart(interval, maxStreams, i - 1, j - 1);
    hide *;
  }

  ghost function Distance(t: nat, u: nat): nat {
    if t <= u then u - t else t - u
  }

  /** Times on the slots of two different streams are at least interval / maxStreams apart. */
  lemma {:induction false} SlotsApart(interval: nat, maxStreams: nat, i: nat, j: nat, t: nat, u: nat)
    requires interval > 0 && 1 <= i < j <= maxStreams && OffsetsExact(interval, maxStreams)
    requires t % interval == Offset(interval, maxStreams, i)
    requires u % interval == Offset(interval, maxStreams, j)
    ensures Distance(t, u) >= interval / maxStreams
  {
    OffsetsSpread(interval, maxStreams, i, j);
    hide Offset, OffsetsExact;
    Apart(interval, t, u, interval / maxStreams);
  }

  lemma {:induction false} Apart(interval: nat, t: nat, u: nat, gap: nat)
    requires interval > 0
    requires t % interval + gap <= u % interval && u % interval + gap <= t % interval + interval
    ensures Distance(t, u) >= gap
  {
    var d := u / interval - t / interval;
    assert u - t == d * interval + u % interval - t % interval by {
      assert u == (u / interval) * interval + u % interval && t == (t / interval) * interval + t % interval;
    }
    if d >= 0 { MulMono(0, d, interval); } else { MulMono(d, -1, interval); }
  }

  // ---------- exactly when ----------

  /** All times on the slots of different streams keep the distance. */
  ghost predicate StreamsApart(interval: nat, maxStreams: nat)
    requires interval > 0 && maxStreams > 0
  {
    forall i, j, t, u ::
      (1 <= i < j <= maxStreams
       && OnGrid(t, interval, Offset(interval, maxStreams, i))
       && OnGrid(u, interval, Offset(interval, maxStreams, j)))
      ==> Distance(t, u) >= interval / maxStreams
  }

  /** The first stream index whose product with the interval wraps, and the offset that it gets. */
  lemma {:induction false} FirstWrap(interval: nat, maxStreams: nat) returns (k: nat)
    requires 0 < interval < UINT32_LIMIT * NS_PER_SEC && maxStreams > 0 && !OffsetsExact(interval, maxStreams)
    ensures 2 <= k < maxStreams
    ensures Offset(interval, maxStreams, 1) == 0
    ensures Offset(interval, maxStreams, 2) == interval / maxStreams
    ensures Offset(interval, maxStreams, k + 1) <= interval / maxStreams
  {
    k := (TWO_TO_THE_64 - 1) / interval + 1;
    var q, r := (TWO_TO_THE_64 - 1) / interval, (TWO_TO_THE_64 - 1) % interval;
    assert TWO_TO_THE_64 - 1 == q * interval + r;
    assert k * interval == q * interval + interval;
    var x := k * interval - TWO_TO_THE_64;
    assert 0 <= x < interval;
    if maxStreams - 1 < k { MulMono(maxStreams - 1, k - 1, interval); }
    if k < 2 { MulMono(k, 1, interval); }
    Quotient(1, TWO_TO_THE_64, x);
    assert Mul64(k, interval) == x;
    FloorMono(x, interval, maxStreams);
  }

  /**
    Slots of different streams are interval / maxStreams apart exactly when the last stream's
    product does not wrap: with a longer interval two streams are closer than that.
   */
  lemma {:induction false} SlotsApartIff(intervalSec: nat, maxStreams: nat)
    requires 0 < intervalSec < UINT32_LIMIT && 1 <= maxStreams <= 256
    ensures StreamsApart(IntervalNs(intervalSec), maxStreams) <==> OffsetsExact(IntervalNs(intervalSec), maxStreams)
  {
    var interval := IntervalNs(intervalSec);
    IntervalBounds(intervalSec);
    FloorMono(NS_PER_SEC, interval, maxStreams);
    hide IntervalNs, Offset;
    if OffsetsExact(interval, maxStreams) {
      hide OffsetsExact, Distance;
      forall i, j, t, u | 1 <= i < j <= maxStreams
        && OnGrid(t, interval, Offset(interval, maxStreams, i))
        && OnGrid(u, interval, Offset(interval, maxStreams, j))
        ensures Distance(t, u) >= interval / maxStreams
      {
        SlotsApart(interval, maxStreams, i, j, t, u);
      }
    } else {
      var k := FirstWrap(interval, maxStreams);
      hide OffsetsExact;
      var t := if Offset(interval, maxStreams, k + 1) < interval / maxStreams then 0 else interval / maxStreams;
      var i := if t == 0 then 1 else 2;
      var u := Offset(interval, maxStreams, k + 1);
      OffsetInInterval(interval, maxStreams, k + 1);
      OffsetInInterval(interval, maxStreams, i);
      Quotient(0, interval, u);
      Quotient(0, interval, t);
      assert OnGrid(t, interval, Offset(interval, maxStreams, i));
      assert OnGrid(u, interval, Offset(interval, maxStreams, k + 1));
      assert Distance(t, u) < interval / maxStreams;
    }
  }

  /** One second above the bound the product wraps and the last stream lands next to the first. */
  lemma {:induction false} LongIntervalsCollide()
    ensures var interval := IntervalNs(72_340_173);
      && !OffsetsExact(interval, 256)
      && Distance(Offset(interval, 256, 1), Offset(interval, 256, 256)) < interval / 256
  {
    assert Mul64(255, IntervalNs(72_340_173)) == 41_290_448_384;
  }
}
