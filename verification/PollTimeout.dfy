/** How long aeProcessEvents lets the poll sleep for the nearest timer. */
module PollTimeout {
  import opened CArithmetic
  import opened TimerList

  datatype Timeval = Timeval(sec: int, usec: int)

  /** The time missing for the nearest timer, as aeProcessEvents computes it field by field. */
  function TimeoutFor(nearest: Timer, now: nat): Timeval {
    var nowSec, nowMs := now / 1000, now % 1000;
    var borrow := nearest.ms < nowMs;
    var usec := (if borrow then nearest.ms + 1000 - nowMs else nearest.ms - nowMs) * 1000;
    var sec := nearest.sec - nowSec - if borrow then 1 else 0;
    Timeval(if sec < 0 then 0 else sec, if usec < 0 then 0 else usec)
  }

  /** The millisecond count ae_epoll.c passes to epoll_wait, whose parameter is an int. */
  function EpollTimeout(tv: Timeval): int {
    ToInt32(tv.sec * 1000 + TruncDiv(tv.usec, 1000))
  }

  function Instant(t: Timer): int {
    t.sec * 1000 + t.ms
  }

  /** For a deadline not in the past the timeout is the exact time left, except for a negative ms part so low that a
      whole second is not enough to borrow; epoll keeps it exactly when it fits an int. */
  lemma TimeoutIsExact(t: Timer, now: nat)
    requires -1000 < t.ms < 1000 && Instant(t) >= now
    ensures var tv := TimeoutFor(t, now);
      && (tv.sec * 1000_000 + tv.usec == (Instant(t) - now) * 1000 <==> t.ms + 1000 >= now % 1000)
      && (t.ms >= 0 ==> (EpollTimeout(tv) == Instant(t) - now <==> Instant(t) - now < 0x8000_0000))
  {
  }

  /** For an overdue timer the poll may still sleep, though less than a second: until the millisecond part of the clock
      is that of the deadline, unless a second is not enough to borrow. */
  lemma OverdueTimeout(t: Timer, now: nat)
    requires -1000 < t.ms < 1000 && Instant(t) < now
    ensures var tv := TimeoutFor(t, now);
      && tv.sec == 0 && 0 <= tv.usec < 1000_000
      && 0 <= EpollTimeout(tv) < 1000
      && (if t.ms + 1000 < now % 1000 then EpollTimeout(tv) == 0
          else now % 1000 + EpollTimeout(tv) == t.ms || now % 1000 + EpollTimeout(tv) == t.ms + 1000)
      && (tv == Timeval(0, 0) <==> t.ms == now % 1000 || t.ms + 1000 <= now % 1000)
  {
    var s, m := now / 1000, now % 1000;
    assert t.sec < s || (t.sec == s && t.ms < m) || (t.sec == s + 1 && t.ms + 1000 < m);
    var d := if t.ms < m then t.ms + 1000 - m else t.ms - m;
    assert TimeoutFor(t, now) == Timeval(0, if d < 0 then 0 else d * 1000);
    assert d >= 0 ==> TruncDiv(d * 1000, 1000) == d;
  }

  /** The milliseconds a backend sleeps when nothing happens; select takes the timeval as it is. */
  function SleepMs(tv: Timeval, epoll: bool): int {
    if epoll then EpollTimeout(tv) else tv.sec * 1000 + TruncDiv(tv.usec, 1000)
  }

  /** The sleep fits the int that epoll_wait takes. */
  predicate FitsInt(tv: Timeval) {
    tv.sec * 1000 + TruncDiv(tv.usec, 1000) < 0x8000_0000
  }

  /** A timer is due when the time chosen for it has been slept exactly if its ms part is not negative or its second
      had come before: with a negative ms part the poll may return too early. */
  lemma SleptDueIff(t: Timer, now: nat, epoll: bool)
    requires -1000 < t.ms < 1000 && (epoll ==> FitsInt(TimeoutFor(t, now)))
    ensures var sleep := SleepMs(TimeoutFor(t, now), epoll);
      sleep >= 0 && (Due(t.sec, t.ms, now + sleep) <==> t.ms >= 0 || t.sec <= now / 1000)
  {
    var tv, later := TimeoutFor(t, now), now + SleepMs(TimeoutFor(t, now), epoll);
    assert tv.usec == tv.usec / 1000 * 1000 && 0 <= tv.usec < 1_000_000;
    assert later == now + tv.sec * 1000 + tv.usec / 1000;
    assert now == now / 1000 * 1000 + now % 1000;
  }

  /** The poll that began at `now` slept the time chosen for timer `t`, one that is due after it. A deadline before
      second 0 is left to clocks past it. */
  predicate SleptOut(t: Timer, now: nat, later: nat, epoll: bool) {
    && -1000 < t.ms < 1000 && (epoll ==> FitsInt(TimeoutFor(t, now)))
    && (t.ms >= 0 || t.sec <= now / 1000) && (t.sec >= 0 || later >= 1000)
    && later >= now + SleepMs(TimeoutFor(t, now), epoll)
  }

  /** When the poll has slept its time out, the timer it slept for is due. */
  lemma SleptMeansDue(t: Timer, now: nat, later: nat, epoll: bool)
    requires SleptOut(t, now, later, epoll)
    ensures Due(t.sec, t.ms, later)
  {
    SleptDueIff(t, now, epoll);
    DueMonotone(t.sec, t.ms, now + SleepMs(TimeoutFor(t, now), epoll), later);
  }
}
