/** When the loop runs: the throttle between polls and events
    (controller/controller.go, `ScheduleRunOnce` and `ShouldRunOnce`). */
module Scheduler {

  /** The two calls, each under the mutex, with the time they are given. */
  datatype Call = Schedule(now: int) | Poll(now: int)

  function Min(a: int, b: int): int {
    if a <= b then a else b
  }

  class Throttle {
    var nextRunAt: int
    const interval: int
    const minEventSyncInterval: int

    constructor (start: int, interval: int, minEventSyncInterval: int)
      ensures nextRunAt == start && this.interval == interval && this.minEventSyncInterval == minEventSyncInterval
    {
      nextRunAt := start;
      this.interval := interval;
      this.minEventSyncInterval := minEventSyncInterval;
    }

    /** An event asks for a run soon; an earlier appointment stands. */
    method ScheduleRunOnce(now: int)
      modifies this
      ensures nextRunAt == After(old(nextRunAt), interval, minEventSyncInterval, Schedule(now))
    {
      if !(nextRunAt < now + minEventSyncInterval) {
        nextRunAt := now + minEventSyncInterval;
      }
    }

    /** A poll runs when the appointment has come, and makes the next one. */
    method ShouldRunOnce(now: int) returns (run: bool)
      modifies this
      ensures run == Due(old(nextRunAt), Poll(now))
      ensures nextRunAt == After(old(nextRunAt), interval, minEventSyncInterval, Poll(now))
    {
      if now < nextRunAt {
        return false;
      }
      nextRunAt := now + interval;
      return true;
    }
  }

  predicate Due(next: int, c: Call) {
    c.Poll? && next <= c.now
  }

  function After(next: int, interval: int, min: int, c: Call): int {
    match c
    case Schedule(now) => Min(next, now + min)
    case Poll(now) => if Due(next, c) then now + interval else next
  }

  /** The appointment after a history of calls. */
  function NextRunAt(start: int, interval: int, min: int, calls: seq<Call>): int {
    if calls == [] then start
    else After(NextRunAt(start, interval, min, calls[..|calls| - 1]), interval, min, calls[|calls| - 1])
  }

  /** Call `i` of the history is a poll that runs the loop. */
  predicate Runs(start: int, interval: int, min: int, calls: seq<Call>, i: nat)
    requires i < |calls|
  {
    Due(NextRunAt(start, interval, min, calls[..i]), calls[i])
  }

  /** Time does not go back from one call to the next. */
  predicate InOrder(calls: seq<Call>) {
    forall i, j :: 0 <= i < j < |calls| ==> calls[i].now <= calls[j].now
  }

  lemma NextStep(start: int, interval: int, min: int, calls: seq<Call>, n: nat)
    requires n < |calls|
    ensures NextRunAt(start, interval, min, calls[..n + 1])
      == After(NextRunAt(start, interval, min, calls[..n]), interval, min, calls[n])
  {
    assert calls[..n + 1][..n] == calls[..n];
  }

  /** After a run no appointment is nearer than the smaller interval. */
  lemma {:induction false} AppointmentAfterRun(start: int, interval: int, min: int, calls: seq<Call>, i: nat, n: nat)
    requires InOrder(calls) && i < n <= |calls| && Runs(start, interval, min, calls, i)
    ensures NextRunAt(start, interval, min, calls[..n]) >= calls[i].now + Min(interval, min)
  {
    NextStep(start, interval, min, calls, n - 1);
    if n > i + 1 {
      AppointmentAfterRun(start, interval, min, calls, i, n - 1);
    }
  }

  /** Any two runs are at least the smaller of the two intervals apart, for
      every interleaving of events and polls. */
  lemma RunsAreSpaced(start: int, interval: int, min: int, calls: seq<Call>, i: nat, j: nat)
    requires InOrder(calls) && i < j < |calls|
    requires Runs(start, interval, min, calls, i) && Runs(start, interval, min, calls, j)
    ensures calls[j].now - calls[i].now >= Min(interval, min)
  {
    AppointmentAfterRun(start, interval, min, calls, i, j);
  }

  function CountRuns(start: int, interval: int, min: int, calls: seq<Call>, lo: nat, hi: nat): nat
    requires lo <= hi <= |calls|
  {
    if lo == hi then 0
    else CountRuns(start, interval, min, calls, lo, hi - 1) + if Runs(start, interval, min, calls, hi - 1) then 1 else 0
  }

  /** The last run of a stretch of calls, and how far it must lie from the start. */
  lemma {:induction false} LastRun(start: int, interval: int, min: int, calls: seq<Call>, lo: nat, hi: nat, from: int)
    returns (r: nat)
    requires InOrder(calls) && lo <= hi <= |calls| && CountRuns(start, interval, min, calls, lo, hi) > 0
    requires forall i :: lo <= i < hi ==> from <= calls[i].now
    ensures lo <= r < hi && Runs(start, interval, min, calls, r)
    ensures (CountRuns(start, interval, min, calls, lo, hi) - 1) * Min(interval, min) <= calls[r].now - from
  {
    var before := CountRuns(start, interval, min, calls, lo, hi - 1);
    if !Runs(start, interval, min, calls, hi - 1) {
      r := LastRun(start, interval, min, calls, lo, hi - 1, from);
    } else if before == 0 {
      r := hi - 1;
    } else {
      var p := LastRun(start, interval, min, calls, lo, hi - 1, from);
      r := hi - 1;
      assert p < r;
      RunsAreSpaced(start, interval, min, calls, p, r);
      OneMore(before, Min(interval, min), calls[p].now - from, calls[r].now - from);
    }
  }

  lemma OneMore(n: int, d: int, w: int, v: int)
    requires (n - 1) * d <= w && w + d <= v
    ensures n * d <= v
  {
  }

  /** A window of length `width` holds at most width / min + 1 runs. */
  lemma WindowBound(start: int, interval: int, min: int, calls: seq<Call>, lo: nat, hi: nat, from: int, width: nat)
    requires InOrder(calls) && lo <= hi <= |calls| && Min(interval, min) > 0
    requires forall i :: lo <= i < hi ==> from <= calls[i].now <= from + width
    ensures CountRuns(start, interval, min, calls, lo, hi) <= width / Min(interval, min) + 1
  {
    var n, d := CountRuns(start, interval, min, calls, lo, hi), Min(interval, min);
    if n > 0 {
      var r := LastRun(start, interval, min, calls, lo, hi, from);
      assert (n - 1) * d <= width;
      QuotientBound(n - 1, d, width);
    }
  }

  lemma QuotientBound(q: int, d: int, w: int)
    requires d > 0 && q * d <= w
    ensures q <= w / d
  {
    var m := w / d + 1;
    assert w < m * d;
    assert q >= m ==> q * d >= m * d;
  }

  /** An event leaves an appointment no later than its deadline until a run. */
  lemma {:induction false} AppointmentAfterEvent(start: int, interval: int, min: int, calls: seq<Call>, i: nat, n: nat)
    requires i < n <= |calls| && calls[i].Schedule?
    requires forall k :: i < k < n ==> !Runs(start, interval, min, calls, k)
    ensures NextRunAt(start, interval, min, calls[..n]) <= calls[i].now + min
  {
    NextStep(start, interval, min, calls, n - 1);
    if n > i + 1 {
      AppointmentAfterEvent(start, interval, min, calls, i, n - 1);
      assert !Runs(start, interval, min, calls, n - 1);
    }
  }

  /** No event is lost: a poll at or after the event's deadline runs, unless the
      loop has run since the event. */
  lemma EventsAreServed(start: int, interval: int, min: int, calls: seq<Call>, i: nat, j: nat)
    requires i < j < |calls| && calls[i].Schedule? && calls[j].Poll?
    requires calls[j].now >= calls[i].now + min
    requires forall k :: i < k < j ==> !Runs(start, interval, min, calls, k)
    ensures Runs(start, interval, min, calls, j)
  {
    AppointmentAfterEvent(start, interval, min, calls, i, j);
  }

  /** After a run the next appointment is no later than an interval away. */
  lemma {:induction false} AppointmentWithinInterval(start: int, interval: int, min: int, calls: seq<Call>, i: nat,
                                                     n: nat)
    requires i < n <= |calls| && Runs(start, interval, min, calls, i)
    requires forall k :: i < k < n ==> !Runs(start, interval, min, calls, k)
    ensures NextRunAt(start, interval, min, calls[..n]) <= calls[i].now + interval
  {
    NextStep(start, interval, min, calls, n - 1);
    if n > i + 1 {
      AppointmentWithinInterval(start, interval, min, calls, i, n - 1);
      assert !Runs(start, interval, min, calls, n - 1);
    }
  }

  /** The loop goes on by itself: a poll an interval after the last run runs. */
  lemma PollsAreServed(start: int, interval: int, min: int, calls: seq<Call>, i: nat, j: nat)
    requires i < j < |calls| && calls[j].Poll? && calls[j].now >= calls[i].now + interval
    requires Runs(start, interval, min, calls, i) && forall k :: i < k < j ==> !Runs(start, interval, min, calls, k)
    ensures Runs(start, interval, min, calls, j)
  {
    AppointmentWithinInterval(start, interval, min, calls, i, j);
  }

  lemma {:induction false} QuietAppointment(start: int, interval: int, min: int, calls: seq<Call>, i: nat, n: nat)
    requires InOrder(calls) && i < n <= |calls| && Runs(start, interval, min, calls, i) && interval >= 0
    requires forall k :: i < k < n ==> calls[k].Poll?
    ensures NextRunAt(start, interval, min, calls[..n]) >= calls[i].now + interval
  {
    NextStep(start, interval, min, calls, n - 1);
    if n > i + 1 { QuietAppointment(start, interval, min, calls, i, n - 1); }
  }

  /** Without events runs are a whole interval apart. */
  lemma QuietRunsAreSpaced(start: int, interval: int, min: int, calls: seq<Call>, i: nat, j: nat)
    requires InOrder(calls) && i < j < |calls| && interval >= 0
    requires Runs(start, interval, min, calls, i) && Runs(start, interval, min, calls, j)
    requires forall k :: i < k < j ==> calls[k].Poll?
    ensures calls[j].now - calls[i].now >= interval
  {
    QuietAppointment(start, interval, min, calls, i, j);
  }
}
