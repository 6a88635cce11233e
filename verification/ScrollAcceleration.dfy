/**
 IOHIDScrollAccelerator: the ring buffer of recent scroll events, the loop that
 averages the newest of them, and the velocity computed from the averages.
 Times are milliseconds; doubles are reals.
 */
module ScrollAcceleration {
  import opened Reals

  const SLOTS := 9                      // SCROLL_EVENT_AVARAGE_LENGHT
  const CLEAR_THRESHOLD := 500.0
  const EVENT_THRESHOLD := 150.0
  const MULTIPLIER_A := 2.0 / 65536.0
  const MULTIPLIER_B := 955.0 / 65536.0
  const MULTIPLIER_C := 98369.0 / 65536.0
  const FRAME_RATE := 67.0
  const LEAST_VELOCITY := 1.0 / 65536.0

  datatype ScrollEvent = ScrollEvent(deltaTime: real, scroll: real)

  /** Everything the accelerator is told about one scroll event. */
  datatype Sample = Sample(event: ScrollEvent, up: bool)

  // ------------------------------------------------------------ the history

  function LastDirection(history: seq<Sample>, first: bool): bool {
    if history == [] then first else history[|history| - 1].up
  }

  /** The number of newest events without a change of direction or a long gap
      in front of any but the first of them. */
  function Streak(history: seq<Sample>, first: bool): (n: nat)
    ensures n <= |history|
  {
    if history == [] then 0
    else
      var before, last := history[..|history| - 1], history[|history| - 1];
      if LastDirection(before, first) != last.up || last.event.deltaTime > CLEAR_THRESHOLD then 1
      else 1 + Streak(before, first)
  }

  /** A streak is maximal: an event starts a new streak exactly when it turns
      or comes after a long gap. */
  lemma {:induction false} StreakIs(history: seq<Sample>, first: bool, k: nat)
    requires k < Streak(history, first)
    ensures var i := |history| - 1 - k;
      k + 1 < Streak(history, first) ==>
        i > 0 && history[i].up == history[i - 1].up && history[i].event.deltaTime <= CLEAR_THRESHOLD
    ensures var i := |history| - 1 - k;
      k + 1 == Streak(history, first) ==>
        i == 0 || history[i].up != history[i - 1].up || history[i].event.deltaTime > CLEAR_THRESHOLD
    decreases k
  {
    var before := history[..|history| - 1];
    if k > 0 {
      StreakIs(before, first, k - 1);
    } else {
      assert before != [] ==> LastDirection(before, first) == history[|history| - 2].up;
      if Streak(history, first) > 1 {
        assert Streak(before, first) >= 1;
      } else if before != [] {
        StreakPositive(before, first);
      }
    }
  }

  lemma StreakPositive(history: seq<Sample>, first: bool)
    requires history != []
    ensures Streak(history, first) >= 1
  {
  }

  /** The `k`-th newest event. */
  function Newest(history: seq<Sample>, k: nat): ScrollEvent
    requires k < |history|
  {
    history[|history| - 1 - k].event
  }

  function Capped(deltaTime: real): real {
    if deltaTime > EVENT_THRESHOLD then EVENT_THRESHOLD else deltaTime
  }

  /** The capped times and the scroll amounts of the newest `k` events. */
  function TimeSum(history: seq<Sample>, k: nat): real
    requires k <= |history|
  {
    if k == 0 then 0.0 else TimeSum(history, k - 1) + Capped(Newest(history, k - 1).deltaTime)
  }

  function ScrollSum(history: seq<Sample>, k: nat): real
    requires k <= |history|
  {
    if k == 0 then 0.0 else ScrollSum(history, k - 1) + Newest(history, k - 1).scroll
  }

  /** The loop goes on after the newest `k` events. */
  predicate GoesOn(history: seq<Sample>, k: nat)
    requires 0 < k <= |history|
  {
    Newest(history, k - 1).deltaTime <= EVENT_THRESHOLD && TimeSum(history, k) < CLEAR_THRESHOLD
  }

  /** `k` is where averaging stops in a window of `window` events: at the first
      event after a pause, once enough time is covered, or at the last event. */
  ghost predicate StopsAt(history: seq<Sample>, window: nat, k: nat)
    requires window <= |history|
  {
    && 0 < k <= window
    && (forall j :: 0 < j < k ==> GoesOn(history, j))
    && (k == window || !GoesOn(history, k))
  }

  /** Averaging always stops, at one place. */
  lemma StopsAtOnce(history: seq<Sample>, window: nat, k: nat, l: nat)
    requires 0 < window <= |history| && StopsAt(history, window, k) && StopsAt(history, window, l)
    ensures k == l
  {
  }

  ghost predicate Sensible(history: seq<Sample>) {
    forall i :: 0 <= i < |history| ==> history[i].event.deltaTime >= 0.0 && history[i].event.scroll >= 0.0
  }

  /** The time covered stays below both thresholds together. */
  lemma {:induction false} TimeBound(history: seq<Sample>, k: nat)
    requires Sensible(history) && k <= |history| && forall j :: 0 < j < k ==> GoesOn(history, j)
    ensures 0.0 <= TimeSum(history, k) < CLEAR_THRESHOLD + EVENT_THRESHOLD && 0.0 <= ScrollSum(history, k)
  {
    if k > 0 {
      TimeBound(history, k - 1);
      assert k > 1 ==> GoesOn(history, k - 1);
    }
  }

  // ----------------------------------------------------------- the velocity

  /** The average time between events, scaled by the report rate and kept
      between one millisecond and the pause threshold. */
  function AverageTime(mean: real, ratio: real): (t: real)
    ensures 1.0 <= t <= EVENT_THRESHOLD
  {
    Clamp(mean * ratio)
  }

  /** Reports per screen frame. */
  function FrameRatio(rate: real): (r: real)
    ensures rate >= 0.0 ==> r >= 0.0
  {
    rate / FRAME_RATE
  }

  function Mean(sum: real, count: nat): real
    requires count > 0
  {
    sum / count as real
  }

  function Clamp(t: real): (c: real)
    ensures 1.0 <= c <= EVENT_THRESHOLD
  {
    if t > EVENT_THRESHOLD then EVENT_THRESHOLD else if t < 1.0 then 1.0 else t
  }

  function Curve(t: real): real {
    MULTIPLIER_A * t * t - MULTIPLIER_B * t + MULTIPLIER_C
  }

  /** The velocity for the mean time between events and the mean scroll. */
  function Velocity(time: real, scroll: real, ratio: real): (v: real)
    ensures v >= LEAST_VELOCITY
  {
    Scaled(Curve(AverageTime(time, ratio)), scroll, ratio)
  }

  function Scaled(factor: real, scroll: real, ratio: real): (v: real)
    ensures v >= LEAST_VELOCITY
  {
    AtLeast(factor * scroll * ratio)
  }

  function AtLeast(v: real): real {
    if v < LEAST_VELOCITY then LEAST_VELOCITY else v
  }

  lemma CurveFalls(s: real, t: real)
    requires 1.0 <= s <= t <= EVENT_THRESHOLD
    ensures 0.0 < Curve(t) <= Curve(s)
  {
    var a, b, c := MULTIPLIER_A, MULTIPLIER_B, MULTIPLIER_C;
    assert Curve(s) - Curve(t) == (t - s) * (b - a * (s + t));
    assert b - a * (s + t) >= 0.0;
    Product(t - s, b - a * (s + t));
    assert Curve(EVENT_THRESHOLD) > 0.0;
    assert Curve(t) - Curve(EVENT_THRESHOLD) == (EVENT_THRESHOLD - t) * (b - a * (EVENT_THRESHOLD + t));
    Product(EVENT_THRESHOLD - t, b - a * (EVENT_THRESHOLD + t));
  }

  lemma ThreeFactors(a: real, b: real, p: real, q: real, r: real)
    requires 0.0 <= a <= b && 0.0 <= p <= q && r >= 0.0
    ensures a * p * r <= b * q * r
  {
    ProductMonotone(a, b, p);
    ProductMonotone(p, q, b);
    assert p * b == b * p && q * b == b * q;
    ProductMonotone(a * p, b * q, r);
  }

  lemma MeanMonotone(s: real, t: real, count: nat)
    requires s <= t && count > 0
    ensures Mean(s, count) <= Mean(t, count) && (s >= 0.0 ==> Mean(s, count) >= 0.0)
  {
    QuotientMonotone(s, t, count as real);
  }

  lemma ClampMonotone(x: real, y: real)
    requires x <= y
    ensures Clamp(x) <= Clamp(y) && AtLeast(x) <= AtLeast(y)
  {
  }

  lemma AverageMonotone(s: real, t: real, ratio: real)
    requires s <= t && ratio >= 0.0
    ensures AverageTime(s, ratio) <= AverageTime(t, ratio)
  {
    ProductMonotone(s, t, ratio);
    ClampMonotone(s * ratio, t * ratio);
  }

  lemma ScaledMonotone(a: real, b: real, x: real, y: real, ratio: real)
    requires 0.0 <= a <= b && 0.0 <= x <= y && ratio >= 0.0
    ensures Scaled(a, x, ratio) <= Scaled(b, y, ratio)
  {
    ThreeFactors(a, b, x, y, ratio);
    ClampMonotone(a * x * ratio, b * y * ratio);
  }

  /** Over the same number of events, scrolling as far in less time, or further
      in the same time, is never slower. */
  lemma VelocityMonotone(s: real, t: real, x: real, y: real, count: nat, ratio: real)
    requires s <= t && 0.0 <= x <= y && count > 0 && ratio >= 0.0
    ensures Velocity(Mean(t, count), Mean(x, count), ratio) <= Velocity(Mean(s, count), Mean(y, count), ratio)
  {
    MeanMonotone(s, t, count);
    MeanMonotone(x, y, count);
    MeanVelocityMonotone(Mean(s, count), Mean(t, count), Mean(x, count), Mean(y, count), ratio);
  }

  lemma MeanVelocityMonotone(s: real, t: real, x: real, y: real, ratio: real)
    requires s <= t && 0.0 <= x <= y && ratio >= 0.0
    ensures Velocity(t, x, ratio) <= Velocity(s, y, ratio)
  {
    AverageMonotone(s, t, ratio);
    var slow, fast := AverageTime(t, ratio), AverageTime(s, ratio);
    CurveFalls(fast, slow);
    ScaledMonotone(Curve(slow), Curve(fast), x, y, ratio);
  }

  /** Averaging equal events gives their own time, capped, and their own scroll,
      however many of them it covers. */
  lemma {:induction false} SteadySums(history: seq<Sample>, k: nat, event: ScrollEvent)
    requires k <= |history| && forall j: nat :: j < k ==> Newest(history, j) == event
    ensures TimeSum(history, k) == k as real * Capped(event.deltaTime) && ScrollSum(history, k) == k as real * event.scroll
  {
    if k > 0 {
      SteadySums(history, k - 1, event);
      assert k as real == (k - 1) as real + 1.0;
    }
  }

  /** The speed of scrolling by `scroll` every `apart` milliseconds, on a device that
      makes `frames` reports for each frame of the screen: a parabola in the time,
      which is kept between 1 and 150, times the scroll in a frame. */
  function SteadySpeed(apart: real, scroll: real, frames: real): real {
    var time := Between(1.0, apart * frames, 150.0);
    var v := (2.0 * time * time - 955.0 * time + 98369.0) / 65536.0 * scroll * frames;
    if v < 1.0 / 65536.0 then 1.0 / 65536.0 else v
  }

  function Between(low: real, t: real, high: real): real {
    if t < low then low else if t > high then high else t
  }

  /** The velocity of a steady run of events, each by `event.scroll`, as many
      milliseconds apart as `event.deltaTime`, but not more than 150. */
  lemma SteadyVelocity(history: seq<Sample>, window: nat, k: nat, event: ScrollEvent, rate: real)
    requires window <= |history| && StopsAt(history, window, k) && forall j: nat :: j < window ==> Newest(history, j) == event
    ensures Velocity(Mean(TimeSum(history, k), k), Mean(ScrollSum(history, k), k), FrameRatio(rate))
            == SteadySpeed(if event.deltaTime > 150.0 then 150.0 else event.deltaTime, event.scroll, rate / 67.0)
  {
    hide Velocity, TimeSum, ScrollSum, Mean, SteadySpeed, FrameRatio;
    SteadyMeans(history, k, event);
    FrameIs(rate);
    VelocityIs(if event.deltaTime > 150.0 then 150.0 else event.deltaTime, event.scroll, rate / 67.0);
  }

  lemma SteadyMeans(history: seq<Sample>, k: nat, event: ScrollEvent)
    requires 0 < k <= |history| && forall j: nat :: j < k ==> Newest(history, j) == event
    ensures Mean(TimeSum(history, k), k) == if event.deltaTime > 150.0 then 150.0 else event.deltaTime
    ensures Mean(ScrollSum(history, k), k) == event.scroll
  {
    hide Mean, TimeSum, ScrollSum;
    SteadySums(history, k, event);
    MeanIs(TimeSum(history, k), Capped(event.deltaTime), k);
    MeanIs(ScrollSum(history, k), event.scroll, k);
  }

  lemma FrameIs(rate: real)
    ensures FrameRatio(rate) == rate / 67.0
  {
  }

  lemma VelocityIs(mean: real, scroll: real, frames: real)
    ensures Velocity(mean, scroll, frames) == SteadySpeed(mean, scroll, frames)
  {
    assert AverageTime(mean, frames) == Between(1.0, mean * frames, 150.0);
    CurveIs(AverageTime(mean, frames));
  }

  lemma CurveIs(t: real)
    ensures Curve(t) == (2.0 * t * t - 955.0 * t + 98369.0) / 65536.0
  {
  }

  lemma MeanIs(sum: real, x: real, count: nat)
    requires count > 0 && sum == count as real * x
    ensures Mean(sum, count) == x
  {
    var n := count as real;
    assert n * x / n == x;
  }

  // ------------------------------------------------------------ the object

  /** The slot of the `k`-th newest event. */
  function Slot(head: nat, k: nat): (i: nat)
    requires head < SLOTS && k < SLOTS
    ensures i < SLOTS
  {
    if k < head then head - 1 - k else head + SLOTS - 1 - k
  }

  function Next(i: nat): nat {
    if i + 1 == SLOTS then 0 else i + 1
  }

  function Span(tail: nat, head: nat): nat
    requires tail < SLOTS && head < SLOTS
  {
    if tail <= head then head - tail else head + SLOTS - tail
  }

  function NextTail(tail: nat, head: nat, clear: bool): nat
  {
    if clear then head else if Next(head) == tail then Next(tail) else tail
  }

  /** Writing the head slot: the other events move one place down, and the
      oldest is dropped once all but one slot are taken. */
  lemma Advance(tail: nat, head: nat, clear: bool)
    requires tail < SLOTS && head < SLOTS
    ensures var t, h := NextTail(tail, head, clear), Next(head);
      && t < SLOTS && h < SLOTS
      && Span(t, h) == (if clear then 1 else Min(SLOTS - 1, Span(tail, head) + 1))
      && Slot(h, 0) == head
      && forall k: nat :: 0 < k < SLOTS - 1 ==> Slot(h, k) == Slot(head, k - 1) != head
  {
  }

  function Min(a: nat, b: nat): nat {
    if a < b then a else b
  }

  function Abs(x: real): real {
    if x < 0.0 then -x else x
  }

  /** The slots from tail to head hold exactly the newest events, in order. */
  ghost predicate Holds(slots: seq<ScrollEvent>, tail: nat, head: nat, history: seq<Sample>) {
    && |slots| == SLOTS && tail < SLOTS && head < SLOTS && Span(tail, head) <= |history|
    && forall k: nat :: k < Span(tail, head) ==> slots[Slot(head, k)] == Newest(history, k)
  }

  lemma HoldsNext(slots: seq<ScrollEvent>, tail: nat, head: nat, history: seq<Sample>, sample: Sample, clear: bool)
    requires Holds(slots, tail, head, history)
    ensures Holds(slots[head := sample.event], NextTail(tail, head, clear), Next(head), history + [sample])
  {
    Advance(tail, head, clear);
    var t, h, longer := NextTail(tail, head, clear), Next(head), history + [sample];
    forall k: nat | k < Span(t, h) ensures slots[head := sample.event][Slot(h, k)] == Newest(longer, k) {
      if k > 0 {
        assert Slot(h, k) == Slot(head, k - 1) != head;
        assert Newest(longer, k) == Newest(history, k - 1);
      }
    }
  }

  lemma StreakNext(history: seq<Sample>, sample: Sample, first: bool)
    ensures var longer := history + [sample];
      && LastDirection(longer, first) == sample.up
      && Streak(longer, first) == (if LastDirection(history, first) != sample.up || sample.event.deltaTime > CLEAR_THRESHOLD
                                   then 1 else 1 + Streak(history, first))
      && (Sensible(history) && sample.event.deltaTime >= 0.0 && sample.event.scroll >= 0.0 ==> Sensible(longer))
  {
    assert (history + [sample])[..|history|] == history;
  }

  /** One more event in the sums, and whether averaging goes on behind it. */
  lemma SumsNext(history: seq<Sample>, k: nat)
    requires k < |history|
    ensures TimeSum(history, 0) == 0.0 && ScrollSum(history, 0) == 0.0
    ensures var event := Newest(history, k);
      && ScrollSum(history, k + 1) == ScrollSum(history, k) + event.scroll
      && TimeSum(history, k + 1) == TimeSum(history, k) + (if event.deltaTime > EVENT_THRESHOLD then EVENT_THRESHOLD else event.deltaTime)
      && (GoesOn(history, k + 1) <==> event.deltaTime <= EVENT_THRESHOLD && TimeSum(history, k + 1) < CLEAR_THRESHOLD)
  {
  }

  class IOHIDScrollAccelerator {
    const rate: real
    const numer: nat
    const denom: nat
    const events: array<ScrollEvent>
    var tail: nat
    var head: nat
    var direction: bool
    var lastTimeStamp: nat
    ghost const firstDirection: bool
    ghost var history: seq<Sample>

    /** The ring buffer holds the newest events of the current streak, eight at most. */
    ghost predicate Valid()
      reads this, events
    {
      && denom > 0 && Sensible(history) && Holds(events[..], tail, head, history)
      && direction == LastDirection(history, firstDirection)
      && Span(tail, head) == Min(SLOTS - 1, Streak(history, firstDirection))
    }

    /** The direction and the time stamp start out with any value. */
    constructor (rate: real, numer: nat, denom: nat, direction: bool, lastTimeStamp: nat)
      requires denom > 0
      ensures Valid() && history == [] && fresh(events)
      ensures this.rate == rate && this.numer == numer && this.denom == denom
      ensures this.direction == direction && this.lastTimeStamp == lastTimeStamp
    {
      this.rate, this.numer, this.denom := rate, numer, denom;
      events := new ScrollEvent[SLOTS](_ => ScrollEvent(0.0, 0.0));
      tail, head, history := 0, 0, [];
      this.direction, this.lastTimeStamp, firstDirection := direction, lastTimeStamp, direction;
    }

    /** Milliseconds since the last event; time stamps are 64 bits wide. */
    function DeltaTime(timestamp: nat): (t: real)
      requires denom > 0
      reads this
      ensures t >= 0.0
      ensures lastTimeStamp <= timestamp < 0x1_0000_0000_0000_0000 ==>
                t * 1000000.0 * denom as real == (timestamp - lastTimeStamp) as real * numer as real
    {
      ((timestamp - lastTimeStamp) % 0x1_0000_0000_0000_0000) as real * numer as real / denom as real / 1000000.0
    }

    /** Writes the head slot and moves head and tail. */
    method Store(scroll: real, deltaT: real)
      requires events.Length == SLOTS && tail < SLOTS && head < SLOTS
      modifies this`head, this`tail, this`direction, events
      ensures events[..] == old(events[..])[old(head) := ScrollEvent(deltaT, Abs(scroll))]
      ensures head == Next(old(head)) && direction == (scroll > 0.0)
      ensures tail == NextTail(old(tail), old(head), old(direction) != (scroll > 0.0) || deltaT > CLEAR_THRESHOLD)
    {
      var slot := head;
      events[slot] := ScrollEvent(deltaT, Abs(scroll));
      head := Next(head);
      if head == tail {
        tail := Next(tail);
      }
      var up := scroll > 0.0;
      if direction != up || deltaT > CLEAR_THRESHOLD {
        tail := slot;
        direction := up;
      }
    }

    /** The first part of accelerate: remembers the event. */
    method Remember(scroll: real, deltaT: real)
      requires Valid() && deltaT >= 0.0
      modifies this`head, this`tail, this`direction, this`history, events
      ensures Valid()
      ensures history == old(history) + [Sample(ScrollEvent(deltaT, Abs(scroll)), scroll > 0.0)]
    {
      ghost var sample := Sample(ScrollEvent(deltaT, Abs(scroll)), scroll > 0.0);
      ghost var clear := direction != (scroll > 0.0) || deltaT > CLEAR_THRESHOLD;
      HoldsNext(events[..], tail, head, history, sample, clear);
      Advance(tail, head, clear);
      StreakNext(history, sample, firstDirection);
      Store(scroll, deltaT);
      history := history + [sample];
    }

    /** The averaging loop: the sums over exactly the events up to the place
        where averaging stops. */
    method Average() returns (sumDeltaT: real, sumScroll: real, eventCount: nat)
      requires Valid() && history != []
      ensures 1 <= eventCount <= Min(SLOTS - 1, Streak(history, firstDirection)) <= |history|
      ensures StopsAt(history, Min(SLOTS - 1, Streak(history, firstDirection)), eventCount)
      ensures sumDeltaT == TimeSum(history, eventCount) && sumScroll == ScrollSum(history, eventCount)
      ensures 0.0 <= sumDeltaT < CLEAR_THRESHOLD + EVENT_THRESHOLD && 0.0 <= sumScroll
    {
      hide Streak, LastDirection, Sensible, TimeSum, ScrollSum, GoesOn;
      sumDeltaT, sumScroll, eventCount := 0.0, 0.0, 0;
      StreakPositive(history, firstDirection);
      ghost var window := Span(tail, head);
      SumsNext(history, 0);
      var i := head;
      while true
        invariant eventCount < window && i == if eventCount == 0 then head else Slot(head, eventCount - 1)
        invariant sumDeltaT == TimeSum(history, eventCount) && sumScroll == ScrollSum(history, eventCount)
        invariant forall j :: 0 < j <= eventCount ==> GoesOn(history, j)
        decreases window - eventCount
      {
        i := (if i != 0 then i else SLOTS) - 1;
        SumsNext(history, eventCount);
        assert events[..][i] == Newest(history, eventCount);
        sumScroll := sumScroll + events[i].scroll;
        eventCount := eventCount + 1;
        if events[i].deltaTime > EVENT_THRESHOLD {
          sumDeltaT := sumDeltaT + EVENT_THRESHOLD;
          break;
        } else {
          sumDeltaT := sumDeltaT + events[i].deltaTime;
        }
        if sumDeltaT >= CLEAR_THRESHOLD {
          break;
        }
        if i == tail {
          break;
        }
      }
      TimeBound(history, eventCount);
    }

    /** accelerate up to the velocity it hands to the acceleration algorithm:
        a function of where averaging stops in the history. */
    method Accelerate(scroll: real, timestamp: nat) returns (velocity: real, eventCount: nat)
      requires Valid()
      modifies this, events
      ensures Valid() && lastTimeStamp == timestamp
      ensures history == old(history) + [Sample(ScrollEvent(old(DeltaTime(timestamp)), Abs(scroll)), scroll > 0.0)]
      ensures StopsAt(history, Min(SLOTS - 1, Streak(history, firstDirection)), eventCount)
      ensures velocity == Velocity(Mean(TimeSum(history, eventCount), eventCount), Mean(ScrollSum(history, eventCount), eventCount),
                                   FrameRatio(rate))
    {
      var deltaT := DeltaTime(timestamp);
      lastTimeStamp := timestamp;
      Remember(scroll, deltaT);
      var sumDeltaT, sumScroll;
      sumDeltaT, sumScroll, eventCount := Average();
      velocity := Velocity(Mean(sumDeltaT, eventCount), Mean(sumScroll, eventCount), FrameRatio(rate));
    }
  }
}
