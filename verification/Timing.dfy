/** The timing of a node from its construction on, in nanoseconds, read off the log of the live object. */
module Timing {
  import opened Types
  import opened Model
  import opened Simulator
  import opened Frames
  import opened Scheduler
  import opened Transport

  /** A TPDO the timer serves: transmission type 254 or 255, and an event timer. */
  predicate HasTimer(pdo: Pdo) {
    && (pdo.communication.transmissionType == 254 || pdo.communication.transmissionType == 255)
    && pdo.communication.eventTimer != 0
  }

  /**
   Attempts every period nanoseconds after start by iterations at the given times: never early, never
   left out, never outside an iteration, and less than a gap late when iterations are at most a gap apart.
   */
  ghost predicate Periodic(fires: seq<Time>, start: Time, period: nat, times: seq<Time>) {
    && (forall k :: 1 <= k <= |fires| ==> fires[k - 1] >= start + k * period)
    && (forall k :: 1 <= k < |fires| ==> fires[k] >= fires[k - 1] + period)
    && (times != [] ==>
          times[|times| - 1] < (if fires == [] then start else fires[|fires| - 1]) + period)
    && (forall t :: t in fires ==> t in times)
    && (forall gap: nat :: Paced(times, gap) ==> Prompt(fires, start, period, times, gap))
  }

  ghost predicate Prompt(fires: seq<Time>, start: Time, period: nat, times: seq<Time>, gap: nat) {
    && (forall k :: 1 <= k < |fires| ==> fires[k] < fires[k - 1] + period + gap)
    && (fires != [] ==>
          times != [] && if times[0] >= start + period then fires[0] == times[0] else fires[0] < start + period + gap)
  }

  /** The deadline rule makes periodic attempts. */
  lemma RuleIsPeriodic(start: Time, period: nat, times: seq<Time>)
    requires period > 0
    ensures Periodic(FireTimes(start + period, period, times), start, period, times)
  {
    var due := start + period;
    var fires := FireTimes(due, period, times);
    forall k | 1 <= k <= |fires|
      ensures fires[k - 1] >= start + k * period
    {
      KthAttempt(start, period, times, k);
    }
    Spacing(due, period, times);
    FiresAreIterations(due, period, times);
    DueFollowsLastFire(due, period, times);
    if times != [] {
      NotOverdue(due, period, times);
    }
    forall gap: nat | Paced(times, gap)
      ensures Prompt(fires, start, period, times, gap)
    {
      RuleIsPrompt(start, period, times, gap);
    }
  }

  lemma RuleIsPrompt(start: Time, period: nat, times: seq<Time>, gap: nat)
    requires period > 0 && Paced(times, gap)
    ensures Prompt(FireTimes(start + period, period, times), start, period, times, gap)
  {
    NeverLate(start + period, period, times, gap);
    FirstAttempt(start + period, period, times, gap);
  }

  lemma TimerIsPeriodic(start: Time, eventTimer: nat, fires: seq<Time>, times: seq<Time>)
    requires eventTimer > 0
    requires fires == FireTimes(start + eventTimer * 1_000_000, eventTimer * 1_000_000, times)
    ensures Periodic(fires, start, eventTimer * 1_000_000, times)
  {
    RuleIsPeriodic(start, eventTimer * 1_000_000, times);
  }

  /** TPDOs without a timer are never attempted by the loop. */
  lemma {:induction false} NoTimerNoAttempts(log: seq<Attempt>, tpdos: TpdoMap, n: u16)
    requires RoutesRespected(log, tpdos) && !(n in tpdos && HasTimer(tpdos[n]))
    ensures TimerAttempts(log, n) == []
  {
    if log != [] {
      var last := log[|log| - 1];
      assert last in log;
      NoTimerNoAttempts(log[..|log| - 1], tpdos, n);
    }
  }

  /** The timer attempts of n in a log are its TimerTpdo(n, t), in order. */
  lemma {:induction false} TimerAttemptsIn(log: seq<Attempt>, n: u16)
    ensures |TimerAttempts(log, n)| <= |log|
    ensures forall t :: t in TimerAttempts(log, n) <==> TimerTpdo(n, t) in log
    ensures forall t :: t in HeartbeatAttempts(log) <==> LoopHeartbeat(t) in log
  {
    if log != [] {
      var front, last := log[..|log| - 1], log[|log| - 1];
      TimerAttemptsIn(front, n);
      assert log == front + [last];
    }
  }

  /** TPDOs with a timer are attempted once every event timer, in milliseconds; the others never. */
  ghost predicate PeriodicTimers(tpdos: TpdoMap, log: seq<Attempt>, start: Time, times: seq<Time>) {
    forall n: u16 ::
      if n in tpdos && HasTimer(tpdos[n])
      then Periodic(TimerAttempts(log, n), start, tpdos[n].communication.eventTimer * 1_000_000, times)
      else TimerAttempts(log, n) == []
  }

  /**
   A node constructed at time start, started, and iterating at the given times: every TPDO with type 254
   or 255 and an event timer of e milliseconds is attempted every e * 1_000_000 nanoseconds, the loop
   heartbeat every 1_000_000_000, and no other TPDO is attempted by the loop.
   */
  method RunFromConstruction(simulator: CanNodeSimulator, pdos: seq<Pdo>, nodeId: u8, start: Time, times: seq<Time>)
    returns (transport: SocketCanTransport, r: Result<()>)
    ensures fresh(transport) && transport.tpdoByNumber == LastWins(pdos, TpdoKey)
    ensures r.Err? ==> transport.attempts == [] && transport.writes == []
    ensures r.Ok? ==> Periodic(HeartbeatAttempts(transport.attempts), start, 1_000_000_000, times)
    ensures r.Ok? ==> PeriodicTimers(transport.tpdoByNumber, transport.attempts, start, times)
  {
    transport := new SocketCanTransport(simulator, pdos, nodeId, start);
    r := transport.Start();
    if r.Err? {
      return;
    }
    ghost var dues := transport.nextAsyncDue;
    ghost var log, sent := transport.TxLoop(times);
    BeatsArePeriodic(transport.attempts, start, times);
    TimersArePeriodic(transport.tpdoByNumber, dues, transport.nextAsyncDue, transport.attempts, start, times);
  }

  lemma BeatsArePeriodic(log: seq<Attempt>, start: Time, times: seq<Time>)
    requires HeartbeatAttempts(log) == HeartbeatAttempts([]) + FireTimes(start + 1_000_000_000, 1_000_000_000, times)
    ensures Periodic(HeartbeatAttempts(log), start, 1_000_000_000, times)
  {
    var fires := FireTimes(start + 1_000_000_000, 1_000_000_000, times);
    assert HeartbeatAttempts([]) + fires == fires;
    RuleIsPeriodic(start, 1_000_000_000, times);
  }

  /** What the loop does with the TPDOs, for deadlines one event timer after the start. */
  lemma TimersArePeriodic(tpdos: TpdoMap, dues: map<u16, Time>, later: map<u16, Time>, log: seq<Attempt>,
                          start: Time, times: seq<Time>)
    requires forall n :: n in tpdos && OnTimer(tpdos[n]) ==>
               n in dues && dues[n] == start + tpdos[n].communication.eventTimer * 1_000_000
    requires TimersFollowed(tpdos, dues, [], later, log, times) && RoutesRespected(log, tpdos)
    ensures PeriodicTimers(tpdos, log, start, times)
  {
    forall n: u16
      ensures if n in tpdos && HasTimer(tpdos[n])
              then Periodic(TimerAttempts(log, n), start, tpdos[n].communication.eventTimer * 1_000_000, times)
              else TimerAttempts(log, n) == []
    {
      if n in tpdos && HasTimer(tpdos[n]) {
        assert TimerFollowed(tpdos[n], n, dues, [], later, log, times);
        TimerIsPeriodic(start, tpdos[n].communication.eventTimer, TimerAttempts(log, n), times);
      } else {
        NoTimerNoAttempts(log, tpdos, n);
      }
    }
  }
}
