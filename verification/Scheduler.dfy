/** The deadline rule of the transmit loop, over whole runs of iterations. */
module Scheduler {
  import opened Walks

  /** Nanoseconds of the monotone clock. */
  type Time = nat

  const SECOND: Time := 1_000_000_000
  const MILLISECOND: Time := 1_000_000

  /** A job that is due is attempted, and its next deadline counts from now, not from the old deadline. */
  function NextDue(due: Time, period: nat, now: Time): Time {
    if now >= due then now + period else due
  }

  /** The deadline after iterations at the given times. */
  function DueAfter(due: Time, period: nat, times: seq<Time>): Time {
    if times == [] then due
    else NextDue(DueAfter(due, period, times[..|times| - 1]), period, times[|times| - 1])
  }

  /** The times of the attempts made by iterations at the given times. */
  function FireTimes(due: Time, period: nat, times: seq<Time>): seq<Time> {
    if times == [] then []
    else
      var before, now := times[..|times| - 1], times[|times| - 1];
      FireTimes(due, period, before) + if now >= DueAfter(due, period, before) then [now] else []
  }

  lemma {:induction false} DueFollowsLastFire(due: Time, period: nat, times: seq<Time>)
    ensures var fires := FireTimes(due, period, times);
            DueAfter(due, period, times) == if fires == [] then due else fires[|fires| - 1] + period
  {
    if times != [] {
      DueFollowsLastFire(due, period, times[..|times| - 1]);
    }
  }

  /** Attempts are made at iteration times. */
  lemma {:induction false} FiresAreIterations(due: Time, period: nat, times: seq<Time>)
    ensures forall t :: t in FireTimes(due, period, times) ==> t in times
  {
    if times != [] {
      var before, now := times[..|times| - 1], times[|times| - 1];
      FiresAreIterations(due, period, before);
      assert times == before + [now];
    }
  }

  /** The first attempt is no earlier than its deadline, the others are at least a period apart. */
  lemma {:induction false} Spacing(due: Time, period: nat, times: seq<Time>)
    ensures var fires := FireTimes(due, period, times);
            && (fires != [] ==> fires[0] >= due)
            && (forall k :: 0 < k < |fires| ==> fires[k] >= fires[k - 1] + period)
  {
    if times != [] {
      var before := times[..|times| - 1];
      Spacing(due, period, before);
      DueFollowsLastFire(due, period, before);
    }
  }

  /** Attempt k+1 is no earlier than k periods after the first deadline. */
  lemma {:induction false} NeverEarly(due: Time, period: nat, times: seq<Time>, k: nat)
    requires k < |FireTimes(due, period, times)|
    ensures FireTimes(due, period, times)[k] >= due + k * period
  {
    Spacing(due, period, times);
    if k > 0 {
      NeverEarly(due, period, times, k - 1);
      assert k * period == (k - 1) * period + period;
    }
  }

  /** A job whose first deadline is one period after start makes its k-th attempt no earlier than start + k periods. */
  lemma KthAttempt(start: Time, period: nat, times: seq<Time>, k: nat)
    requires 1 <= k <= |FireTimes(start + period, period, times)|
    ensures FireTimes(start + period, period, times)[k - 1] >= start + k * period
  {
    NeverEarly(start + period, period, times, k - 1);
    OneMore(k - 1, period);
  }

  /** Iterations in clock order, no further apart than gap. */
  predicate Paced(times: seq<Time>, gap: nat) {
    forall i :: 0 < i < |times| ==> times[i - 1] <= times[i] <= times[i - 1] + gap
  }

  /** Right after an iteration no job is overdue. */
  lemma NotOverdue(due: Time, period: nat, times: seq<Time>)
    requires times != [] && period > 0
    ensures times[|times| - 1] < DueAfter(due, period, times)
  {
  }

  /** With iterations at most gap apart, all but the first come less than a gap after the deadline they meet. */
  lemma PromptIteration(due: Time, period: nat, times: seq<Time>, gap: nat)
    requires period > 0 && Paced(times, gap) && |times| > 1
    ensures times[|times| - 1] < DueAfter(due, period, times[..|times| - 1]) + gap
  {
    var before := times[..|times| - 1];
    NotOverdue(due, period, before);
    assert times[|times| - 1] <= times[|times| - 2] + gap;
  }

  /** With iterations at most gap apart, attempts are less than a period and a gap apart. */
  lemma {:induction false} NeverLate(due: Time, period: nat, times: seq<Time>, gap: nat)
    requires period > 0 && Paced(times, gap)
    ensures var fires := FireTimes(due, period, times);
            forall k :: 0 < k < |fires| ==> fires[k] < fires[k - 1] + period + gap
  {
    if |times| > 1 {
      var before := times[..|times| - 1];
      NeverLate(due, period, before, gap);
      DueFollowsLastFire(due, period, before);
      PromptIteration(due, period, times, gap);
    } else if times != [] {
      assert times[..0] == [];
    }
  }

  /**
   With iterations at most gap apart, the first attempt is at the first iteration when that finds the
   job due, and otherwise less than a gap after the deadline.
   */
  lemma {:induction false} FirstAttempt(due: Time, period: nat, times: seq<Time>, gap: nat)
    requires period > 0 && Paced(times, gap)
    ensures var fires := FireTimes(due, period, times);
            fires != [] ==> if times[0] >= due then fires[0] == times[0] else fires[0] < due + gap
    ensures times != [] && times[0] >= due ==> FireTimes(due, period, times) != []
  {
    if |times| > 1 {
      var before := times[..|times| - 1];
      FirstAttempt(due, period, before, gap);
      if FireTimes(due, period, before) == [] {
        DueFollowsLastFire(due, period, before);
        PromptIteration(due, period, times, gap);
      }
    } else if times != [] {
      assert times[..0] == [];
    }
  }

  lemma OneMore(n: nat, p: nat)
    ensures (n + 1) * p == n * p + p
  {
  }

  /** The deadline, or a gap before the first iteration when that comes even later. */
  function LateBase(due: Time, times: seq<Time>, gap: nat): (base: Time)
    ensures due <= base && (times != [] ==> times[0] <= base + gap)
    ensures base == due || (times != [] && base + gap == times[0])
  {
    if times != [] && times[0] > due + gap then times[0] - gap else due
  }

  /** Each attempt moves the deadline by less than a period and a gap. */
  lemma {:induction false} DeadlineBound(due: Time, period: nat, times: seq<Time>, gap: nat)
    requires period > 0 && Paced(times, gap)
    ensures DueAfter(due, period, times)
         <= LateBase(due, times, gap) + |FireTimes(due, period, times)| * (period + gap)
  {
    if times != [] {
      var before := times[..|times| - 1];
      DeadlineBound(due, period, before, gap);
      OneMore(|FireTimes(due, period, before)|, period + gap);
      if before != [] {
        PromptIteration(due, period, times, gap);
      }
    }
  }

  /**
   The number of attempts by the time of the last iteration, from both sides, for every paced run
   however long after the deadline it starts.
   */
  lemma AttemptCount(due: Time, period: nat, times: seq<Time>, gap: nat)
    requires period > 0 && Paced(times, gap) && times != []
    ensures var n, now := |FireTimes(due, period, times)|, times[|times| - 1];
            && now < LateBase(due, times, gap) + n * (period + gap)
            && (n > 0 ==> due + (n - 1) * period <= now && times[0] + (n - 1) * period <= now)
  {
    DeadlineBound(due, period, times, gap);
    NotOverdue(due, period, times);
    var fires := FireTimes(due, period, times);
    if fires != [] {
      FiresAreIterations(due, period, times);
      NeverEarly(due, period, times, |fires| - 1);
      PacedBound(times, gap, fires[|fires| - 1]);
      PacedBound(times, gap, fires[0]);
      SpacedOut(due, period, times, |fires| - 1);
    }
  }

  /** The k-th attempt after the first is at least k periods later. */
  lemma {:induction false} SpacedOut(due: Time, period: nat, times: seq<Time>, k: nat)
    requires k < |FireTimes(due, period, times)|
    ensures FireTimes(due, period, times)[k] >= FireTimes(due, period, times)[0] + k * period
  {
    Spacing(due, period, times);
    if k > 0 {
      SpacedOut(due, period, times, k - 1);
      OneMore(k - 1, period);
    }
  }

  lemma {:induction false} PacedBound(times: seq<Time>, gap: nat, t: Time)
    requires Paced(times, gap) && t in times
    ensures times[0] <= t <= times[|times| - 1]
  {
    var before := times[..|times| - 1];
    if t in before {
      PacedBound(before, gap, t);
    } else if before != [] {
      PacedBound(before, gap, before[0]);
    }
  }

  // ----- Runs one after the other -----

  /** A later run takes over the deadline where the earlier one left it, so two runs schedule like one. */
  lemma {:induction false} RunsCompose(due: Time, period: nat, a: seq<Time>, b: seq<Time>)
    ensures DueAfter(due, period, a + b) == DueAfter(DueAfter(due, period, a), period, b)
    ensures FireTimes(due, period, a + b)
         == FireTimes(due, period, a) + FireTimes(DueAfter(due, period, a), period, b)
  {
    if b == [] {
      assert a + b == a;
    } else {
      var front, now := b[..|b| - 1], b[|b| - 1];
      var middle := DueAfter(due, period, a);
      RunsCompose(due, period, a, front);
      assert (a + b)[..|a + b| - 1] == a + front;
      Associative(FireTimes(due, period, a), FireTimes(middle, period, front),
                  if now >= DueAfter(middle, period, front) then [now] else []);
    }
  }

  /** The logs x, y and z before, between and after two runs: together the runs make the attempts of one. */
  lemma LogsCompose(x: seq<Time>, y: seq<Time>, z: seq<Time>, due: Time, middle: Time, period: nat,
                    a: seq<Time>, b: seq<Time>)
    requires middle == DueAfter(due, period, a)
    requires y == x + FireTimes(due, period, a) && z == y + FireTimes(middle, period, b)
    ensures DueAfter(due, period, a + b) == DueAfter(middle, period, b)
    ensures z == x + FireTimes(due, period, a + b)
  {
    RunsCompose(due, period, a, b);
    Associative(x, FireTimes(due, period, a), FireTimes(middle, period, b));
  }
}
