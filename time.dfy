/** Wall-clock values as `struct timeval` holds them, the timeradd/timersub
    macros, and the two computations the relay does with them: a frame's
    deadline (schedule_frame) and the wait until the queue head is due
    (ttn_frame). */
module Time {

  const MicrosPerSecond: int := 1000000
  const MicrosPerMilli: int := 1000

  /** A `struct timeval`: whole seconds and microseconds. */
  datatype TimeVal = TimeVal(sec: int, usec: int)

  /** What gettimeofday returns and what timeradd/timersub expect. */
  predicate Normalized(t: TimeVal) {
    0 <= t.usec < MicrosPerSecond
  }

  /** The instant as a single count of microseconds. */
  function ToMicros(t: TimeVal): int {
    t.sec * MicrosPerSecond + t.usec
  }

  /** timeradd(3): add field-wise, then carry one second if the
      microseconds overflowed. */
  function TimerAdd(a: TimeVal, b: TimeVal): (r: TimeVal)
    requires Normalized(a) && Normalized(b)
    ensures Normalized(r)
    ensures ToMicros(r) == ToMicros(a) + ToMicros(b)
  {
    var sec := a.sec + b.sec;
    var usec := a.usec + b.usec;
    if usec >= MicrosPerSecond then TimeVal(sec + 1, usec - MicrosPerSecond)
    else TimeVal(sec, usec)
  }

  /** timersub(3): subtract field-wise, then borrow one second if the
      microseconds went negative. */
  function TimerSub(a: TimeVal, b: TimeVal): (r: TimeVal)
    requires Normalized(a) && Normalized(b)
    ensures Normalized(r)
    ensures ToMicros(r) == ToMicros(a) - ToMicros(b)
  {
    var sec := a.sec - b.sec;
    var usec := a.usec - b.usec;
    if usec < 0 then TimeVal(sec - 1, usec + MicrosPerSecond)
    else TimeVal(sec, usec)
  }

  /** The seconds field of a normalised timeval is negative exactly when
      the instant it denotes is: the fact the comment above the branch in
      ttn_frame relies on ("1 microsecond past" gives sec = -1,
      usec = 999999). */
  lemma NegativeSecIff(t: TimeVal)
    requires Normalized(t)
    ensures t.sec < 0 <==> ToMicros(t) < 0
  {
    if t.sec < 0 {
      assert t.sec * MicrosPerSecond <= -MicrosPerSecond;
    } else {
      assert t.sec * MicrosPerSecond >= 0;
    }
  }

  lemma SubNegativeIff(a: TimeVal, b: TimeVal)
    requires Normalized(a) && Normalized(b)
    ensures TimerSub(a, b).sec < 0 <==> ToMicros(a) < ToMicros(b)
  {
    NegativeSecIff(TimerSub(a, b));
  }

  /** The fixed hold time added by schedule_frame: 1 s and 500000 us. */
  const Delay: TimeVal := TimeVal(1, 500000)
  const DelayMicros: int := 1500000

  /** The deadline schedule_frame stamps on a frame captured at `now`. */
  function Deadline(now: TimeVal): (r: TimeVal)
    requires Normalized(now)
    ensures Normalized(r)
    ensures ToMicros(r) == ToMicros(now) + DelayMicros
  {
    TimerAdd(now, Delay)
  }

  /** The value ttn_frame returns for a non-empty queue: the time from
      `now` to the head's deadline in whole milliseconds, 0 once the
      seconds field of the difference is negative. */
  function WaitMillis(deadline: TimeVal, now: TimeVal): (ms: int)
    requires Normalized(deadline) && Normalized(now)
    ensures ms >= 0
    ensures var d := ToMicros(deadline) - ToMicros(now);
            ms == if d < 0 then 0 else d / MicrosPerMilli
  {
    var diff := TimerSub(deadline, now);
    SubNegativeIff(deadline, now);
    if diff.sec < 0 then 0
    else
      MillisOfSplit(diff.sec, diff.usec);
      diff.sec * 1000 + diff.usec / 1000
  }

  /** Converting (sec, usec) to milliseconds field by field truncates the
      same way as converting the whole microsecond count. */
  lemma MillisOfSplit(sec: int, usec: int)
    requires sec >= 0 && 0 <= usec < MicrosPerSecond
    ensures (sec * MicrosPerSecond + usec) / MicrosPerMilli == sec * 1000 + usec / 1000
  {
    var q := sec * 1000 + usec / 1000;
    assert sec * MicrosPerSecond + usec == q * MicrosPerMilli + usec % 1000;
  }

  /** The head is treated as due exactly when its deadline is less than
      one millisecond away, so it can go out up to 999 us early. */
  lemma WaitZeroIff(deadline: TimeVal, now: TimeVal)
    requires Normalized(deadline) && Normalized(now)
    ensures WaitMillis(deadline, now) == 0 <==> ToMicros(deadline) - ToMicros(now) < MicrosPerMilli
  {
  }

  /** A deadline already reached gives a zero wait. */
  lemma WaitZeroWhenOverdue(deadline: TimeVal, now: TimeVal)
    requires Normalized(deadline) && Normalized(now)
    requires ToMicros(now) >= ToMicros(deadline)
    ensures WaitMillis(deadline, now) == 0
  {
  }

  /** A frame whose capture time is not later than `now` is at most the
      hold time (1500 ms) away. */
  lemma WaitAtMostDelay(capture: TimeVal, now: TimeVal)
    requires Normalized(capture) && Normalized(now)
    requires ToMicros(capture) <= ToMicros(now)
    ensures WaitMillis(Deadline(capture), now) <= 1500
  {
    var d := ToMicros(Deadline(capture)) - ToMicros(now);
    assert d <= DelayMicros;
    if d >= 0 {
      assert d / MicrosPerMilli <= DelayMicros / MicrosPerMilli;
    }
  }

  /** The truncation at work: 999 us before the deadline the wait is
      already zero. */
  lemma WaitZeroBeforeDeadline()
    ensures ToMicros(TimeVal(10, 499001)) < ToMicros(TimeVal(10, 500000))
    ensures WaitMillis(TimeVal(10, 500000), TimeVal(10, 499001)) == 0
  {
  }
}
