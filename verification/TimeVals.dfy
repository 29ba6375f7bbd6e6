/** Time values of thread.c, over unbounded integers. */
module TimeVals {
  const TIMER_SECOND_MICRO := 1000000

  datatype TimeVal = TimeVal(sec: int, usec: int)

  /** What gettimeofday() returns. */
  predicate Normal(t: TimeVal) {
    0 <= t.usec < TIMER_SECOND_MICRO
  }

  /** The time in microseconds. */
  function Micros(t: TimeVal): int {
    t.sec * TIMER_SECOND_MICRO + t.usec
  }

  // ---------- timeval_adjust ----------

  /** The normal form of `us` microseconds, clamped: a negative time is 10 microseconds, and at
      most TIMER_SECOND_MICRO whole seconds are kept (with the fraction). */
  function Clamped(us: int): (t: TimeVal)
    ensures Normal(t) && 0 <= t.sec <= TIMER_SECOND_MICRO
  {
    var sec, usec := us / TIMER_SECOND_MICRO, us % TIMER_SECOND_MICRO;
    if sec < 0 then TimeVal(0, 10)
    else if sec > TIMER_SECOND_MICRO then TimeVal(TIMER_SECOND_MICRO, usec)
    else TimeVal(sec, usec)
  }

  method TimevalAdjust(t: TimeVal) returns (r: TimeVal)
    ensures r == Clamped(Micros(t))
  {
    var sec, usec := t.sec, t.usec;
    while usec >= TIMER_SECOND_MICRO
      invariant sec * TIMER_SECOND_MICRO + usec == Micros(t)
    {
      usec := usec - TIMER_SECOND_MICRO;
      sec := sec + 1;
    }
    while usec < 0
      invariant sec * TIMER_SECOND_MICRO + usec == Micros(t) && usec < TIMER_SECOND_MICRO
      decreases -usec
    {
      usec := usec + TIMER_SECOND_MICRO;
      sec := sec - 1;
    }
    if sec < 0 { sec, usec := 0, 10; }
    if sec > TIMER_SECOND_MICRO { sec := TIMER_SECOND_MICRO; }
    return TimeVal(sec, usec);
  }

  method TimevalSubtract(a: TimeVal, b: TimeVal) returns (r: TimeVal)
    ensures r == Clamped(Micros(a) - Micros(b))
  {
    r := TimevalAdjust(TimeVal(a.sec - b.sec, a.usec - b.usec));
  }

  // ---------- timeval_cmp ----------

  function TimevalCmp(a: TimeVal, b: TimeVal): int {
    if a.sec == b.sec then a.usec - b.usec else a.sec - b.sec
  }

  /** On normal times the lexicographic comparison orders by microseconds. */
  lemma CmpOrdersMicros(a: TimeVal, b: TimeVal)
    requires 0 <= a.usec < 1000000 && 0 <= b.usec < 1000000
    ensures TimevalCmp(a, b) <= 0 <==> Micros(a) <= Micros(b)
    ensures TimevalCmp(a, b) >= 0 <==> Micros(a) >= Micros(b)
    ensures TimevalCmp(a, b) == 0 <==> a == b
  {}

  // ---------- The select wait ----------

  /** How long select() waits for a deadline when the clock shows `now`. */
  function Wait(deadline: TimeVal, now: TimeVal): TimeVal {
    Clamped(Micros(deadline) - Micros(now))
  }

  /** The wait never passes a deadline that has not been reached, is ten microseconds once it has
      passed, and otherwise falls short only by being cut to 10^6 seconds and the fraction. */
  lemma WaitBounds(deadline: TimeVal, now: TimeVal)
    ensures var left := Micros(deadline) - Micros(now);
      var w := Micros(Wait(deadline, now));
      && (left >= 0 ==> 0 <= w <= left)
      && (left < 0 ==> w == 10)
      && (0 <= left && w < left ==> 1000000000000 <= w < 1000001000000 && w % 1000000 == left % 1000000)
  {}
}
