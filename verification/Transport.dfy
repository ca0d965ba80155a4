/** The SocketCAN transport: the object that ties PDOs, timers and frames to the simulator. */
module Transport {
  import opened Types
  import opened Bits
  import opened Model
  import opened Simulator
  import opened PdoCodec
  import opened Walks
  import opened Frames
  import opened Scheduler
  import Nmt

  /** Who asked for a send. */
  datatype Attempt =
    | KeywordTpdo(number: u16)
    | SyncTpdo(number: u16)
    | TimerTpdo(number: u16, at: Time)
    | KeywordHeartbeat
    | LoopHeartbeat(at: Time)

  function RpdoKey(pdo: Pdo): Option<nat> {
    if pdo.direction.Receive? then Some(Mask(pdo.communication.cobId)) else None
  }

  function TpdoKey(pdo: Pdo): Option<u16> {
    if pdo.direction.Transmit? then Some(pdo.number) else None
  }

  /** The event timer of a PDO in clock units. */
  function Period(pdo: Pdo): nat {
    pdo.communication.eventTimer * MILLISECOND
  }

  function TimerOf(n: u16): Attempt -> seq<Time> {
    (a: Attempt) => if a.TimerTpdo? && a.number == n then [a.at] else []
  }

  function BeatOf(): Attempt -> seq<Time> {
    (a: Attempt) => if a.LoopHeartbeat? then [a.at] else []
  }

  /** The times at which the timer route attempted TPDO n, read off the log. */
  ghost function TimerAttempts(log: seq<Attempt>, n: u16): seq<Time> {
    FlatMap(TimerOf(n), log)
  }

  ghost function HeartbeatAttempts(log: seq<Attempt>): seq<Time> {
    FlatMap(BeatOf(), log)
  }

  ghost function SyncAttempts(order: seq<u16>): seq<Attempt> {
    seq(|order|, i requires 0 <= i < |order| => SyncTpdo(order[i]))
  }

  ghost function TimedAttempts(order: seq<u16>, now: Time): seq<Attempt> {
    seq(|order|, i requires 0 <= i < |order| => TimerTpdo(order[i], now))
  }

  /** A walk without repetition attempts each of its numbers once. */
  lemma {:induction false} TimedAttemptsOnce(order: seq<u16>, now: Time, n: u16)
    requires forall i, j :: 0 <= i < j < |order| ==> order[i] != order[j]
    ensures TimerAttempts(TimedAttempts(order, now), n) == if n in order then [now] else []
  {
    if order != [] {
      var front, last := order[..|order| - 1], order[|order| - 1];
      TimedAttemptsOnce(front, now, n);
      assert order == front + [last];
      TimedAttemptsNext(front, now, last);
      FlatMapNext(TimerOf(n), TimedAttempts(front, now), TimerTpdo(last, now));
    }
  }

  /** A timer walk makes no heartbeat. */
  lemma {:induction false} TimedAttemptsNoBeat(order: seq<u16>, now: Time)
    ensures HeartbeatAttempts(TimedAttempts(order, now)) == []
  {
    if order != [] {
      var front, last := order[..|order| - 1], order[|order| - 1];
      TimedAttemptsNoBeat(front, now);
      assert order == front + [last];
      TimedAttemptsNext(front, now, last);
      FlatMapNext(BeatOf(), TimedAttempts(front, now), TimerTpdo(last, now));
    }
  }

  /** What one iteration adds to any reading of the log. */
  lemma IterationReading(f: Attempt -> seq<Time>, before: seq<Attempt>, beat: bool, order: seq<u16>, now: Time)
    ensures FlatMap(f, before + IterationLog(beat, order, now))
         == FlatMap(f, before) + (if beat then f(LoopHeartbeat(now)) else []) + FlatMap(f, TimedAttempts(order, now))
  {
    var first := if beat then [LoopHeartbeat(now)] else [];
    Associative(before, first, TimedAttempts(order, now));
    FlatMapAppend(f, before + first, TimedAttempts(order, now));
    if beat {
      FlatMapNext(f, before, LoopHeartbeat(now));
    } else {
      assert before + first == before;
    }
  }

  /** What one iteration adds to the attempt times of TPDO n. */
  lemma IterationTimer(before: seq<Attempt>, beat: bool, order: seq<u16>, now: Time, n: u16)
    requires forall i, j :: 0 <= i < j < |order| ==> order[i] != order[j]
    ensures TimerAttempts(before + IterationLog(beat, order, now), n)
         == TimerAttempts(before, n) + (if n in order then [now] else [])
  {
    IterationReading(TimerOf(n), before, beat, order, now);
    TimedAttemptsOnce(order, now, n);
    assert TimerAttempts(before, n) + [] == TimerAttempts(before, n);
  }

  /** What one iteration adds to the attempt times of the heartbeat. */
  lemma IterationBeat(before: seq<Attempt>, beat: bool, order: seq<u16>, now: Time)
    ensures HeartbeatAttempts(before + IterationLog(beat, order, now))
         == HeartbeatAttempts(before) + (if beat then [now] else [])
  {
    IterationReading(BeatOf(), before, beat, order, now);
    TimedAttemptsNoBeat(order, now);
  }

  /** Every attempt in the log is for a PDO of the route that made it. */
  ghost predicate RoutesRespected(log: seq<Attempt>, tpdos: TpdoMap) {
    forall a :: a in log ==>
      && (a.SyncTpdo? ==> a.number in tpdos && OnSync(tpdos[a.number]))
      && (a.TimerTpdo? ==> a.number in tpdos && OnTimer(tpdos[a.number]))
  }

  lemma SyncRoutesRespected(log: seq<Attempt>, order: seq<u16>, tpdos: TpdoMap)
    requires RoutesRespected(log, tpdos)
    requires forall n :: n in order ==> n in tpdos && OnSync(tpdos[n])
    ensures RoutesRespected(log + SyncAttempts(order), tpdos)
  {
  }

  lemma TimedRoutesRespected(log: seq<Attempt>, order: seq<u16>, now: Time, tpdos: TpdoMap)
    requires RoutesRespected(log, tpdos)
    requires forall n :: n in order ==> n in tpdos && OnTimer(tpdos[n])
    ensures RoutesRespected(log + TimedAttempts(order, now), tpdos)
  {
  }

  /**
   The SYNC route attempts transmission types 1 to 240 alone, the timer route types 254 and 255 with an
   event timer alone, so no TPDO is ever served by both, and types 0 and 241 to 253 by neither.
   */
  lemma OneRouteOnly(log: seq<Attempt>, tpdos: TpdoMap, n: u16, at: Time)
    requires RoutesRespected(log, tpdos)
    ensures SyncTpdo(n) in log ==> n in tpdos && 1 <= tpdos[n].communication.transmissionType <= 240
    ensures TimerTpdo(n, at) in log ==>
              && n in tpdos && tpdos[n].communication.eventTimer > 0
              && (tpdos[n].communication.transmissionType == 254 || tpdos[n].communication.transmissionType == 255)
    ensures !(SyncTpdo(n) in log && TimerTpdo(n, at) in log)
    ensures n in tpdos && (tpdos[n].communication.transmissionType == 0
                           || 241 <= tpdos[n].communication.transmissionType <= 253) ==>
              SyncTpdo(n) !in log && TimerTpdo(n, at) !in log
  {
  }

  /** A walk without repetition logs each of its numbers once, and nothing else. */
  lemma SyncAttemptsOnce(order: seq<u16>, n: u16)
    requires forall i, j :: 0 <= i < j < |order| ==> order[i] != order[j]
    ensures multiset(SyncAttempts(order))[SyncTpdo(n)] == if n in order then 1 else 0
    ensures forall a :: a in SyncAttempts(order) ==> a.SyncTpdo?
  {
    if order != [] {
      var front, last := order[..|order| - 1], order[|order| - 1];
      SyncAttemptsOnce(front, n);
      assert order == front + [last];
      assert SyncAttempts(order) == SyncAttempts(front) + [SyncTpdo(last)];
    }
  }

  /** The frames of a log of writes are those of the writes, one by one. */
  lemma {:induction false} FramesOneByOne(writes: seq<Write>)
    ensures |FramesOf(writes)| == |writes|
    ensures forall i :: 0 <= i < |writes| ==> FramesOf(writes)[i] == writes[i].frame
  {
    if writes != [] {
      FramesOneByOne(writes[..|writes| - 1]);
    }
  }

  /** The timer state of one TPDO after some iterations: its deadline and the attempts made. */
  lemma ScheduleNext(due: Time, period: nat, times: seq<Time>, i: nat)
    requires i < |times|
    ensures DueAfter(due, period, times[..i + 1]) == NextDue(DueAfter(due, period, times[..i]), period, times[i])
    ensures FireTimes(due, period, times[..i + 1])
         == FireTimes(due, period, times[..i])
            + if times[i] >= DueAfter(due, period, times[..i]) then [times[i]] else []
  {
    assert times[..i + 1][..i] == times[..i];
  }

  /** One more iteration keeps TPDO n's attempts equal to what its deadline rule prescribes. */
  lemma TimerRunNext(log: seq<Attempt>, before: seq<Attempt>, beat: bool, order: seq<u16>, n: u16,
                     due: Time, period: nat, times: seq<Time>, i: nat)
    requires i < |times| && forall j, k :: 0 <= j < k < |order| ==> order[j] != order[k]
    requires TimerAttempts(before, n) == TimerAttempts(log, n) + FireTimes(due, period, times[..i])
    requires n in order <==> times[i] >= DueAfter(due, period, times[..i])
    ensures var after := before + IterationLog(beat, order, times[i]);
            TimerAttempts(after, n) == TimerAttempts(log, n) + FireTimes(due, period, times[..i + 1])
    ensures DueAfter(due, period, times[..i + 1]) == NextDue(DueAfter(due, period, times[..i]), period, times[i])
  {
    ScheduleNext(due, period, times, i);
    IterationTimer(before, beat, order, times[i], n);
    Associative(TimerAttempts(log, n), FireTimes(due, period, times[..i]), if n in order then [times[i]] else []);
  }

  /** The same for the loop's heartbeat. */
  lemma HeartbeatRunNext(log: seq<Attempt>, before: seq<Attempt>, beat: bool, order: seq<u16>,
                         due: Time, period: nat, times: seq<Time>, i: nat)
    requires i < |times|
    requires HeartbeatAttempts(before) == HeartbeatAttempts(log) + FireTimes(due, period, times[..i])
    requires beat <==> times[i] >= DueAfter(due, period, times[..i])
    ensures var after := before + IterationLog(beat, order, times[i]);
            HeartbeatAttempts(after) == HeartbeatAttempts(log) + FireTimes(due, period, times[..i + 1])
    ensures DueAfter(due, period, times[..i + 1]) == NextDue(DueAfter(due, period, times[..i]), period, times[i])
  {
    ScheduleNext(due, period, times, i);
    IterationBeat(before, beat, order, times[i]);
    Associative(HeartbeatAttempts(log), FireTimes(due, period, times[..i]), if beat then [times[i]] else []);
  }

  /** Iterations at the given times took TPDO n's deadline and the log from due and log to later and after. */
  ghost predicate TimerFollowed(pdo: Pdo, n: u16, due: map<u16, Time>, log: seq<Attempt>,
                                later: map<u16, Time>, after: seq<Attempt>, times: seq<Time>)
  {
    && n in due && n in later
    && later[n] == DueAfter(due[n], Period(pdo), times)
    && TimerAttempts(after, n) == TimerAttempts(log, n) + FireTimes(due[n], Period(pdo), times)
  }

  /** The same for every timer TPDO. */
  ghost predicate TimersFollowed(tpdos: TpdoMap, due: map<u16, Time>, log: seq<Attempt>,
                                 later: map<u16, Time>, after: seq<Attempt>, times: seq<Time>)
  {
    forall n :: n in tpdos && OnTimer(tpdos[n]) ==> TimerFollowed(tpdos[n], n, due, log, later, after, times)
  }

  /** Two runs one after the other are one run over all the iterations. */
  lemma TimersCompose(tpdos: TpdoMap, due: map<u16, Time>, log: seq<Attempt>, middleDue: map<u16, Time>,
                      middle: seq<Attempt>, later: map<u16, Time>, after: seq<Attempt>, a: seq<Time>, b: seq<Time>)
    requires TimersFollowed(tpdos, due, log, middleDue, middle, a)
    requires TimersFollowed(tpdos, middleDue, middle, later, after, b)
    ensures TimersFollowed(tpdos, due, log, later, after, a + b)
  {
    forall n | n in tpdos && OnTimer(tpdos[n])
      ensures TimerFollowed(tpdos[n], n, due, log, later, after, a + b)
    {
      assert TimerFollowed(tpdos[n], n, due, log, middleDue, middle, a);
      assert TimerFollowed(tpdos[n], n, middleDue, middle, later, after, b);
      LogsCompose(TimerAttempts(log, n), TimerAttempts(middle, n), TimerAttempts(after, n),
                  due[n], middleDue[n], Period(tpdos[n]), a, b);
    }
  }

  /** The deadlines once the given numbers have been served at time now. */
  function Deadlines(start: map<u16, Time>, tpdos: TpdoMap, served: set<u16>, now: Time): map<u16, Time> {
    map n | n in start :: if n in served && n in tpdos then now + Period(tpdos[n]) else start[n]
  }

  /** Visiting one TPDO of the timer walk: it is due by its current deadline exactly when it was at the start. */
  lemma DeadlinesVisit(start: map<u16, Time>, tpdos: TpdoMap, due: set<u16>, remaining: set<u16>, now: Time, n: u16,
                       current: map<u16, Time>)
    requires n in remaining && n in tpdos && current == Deadlines(start, tpdos, due - remaining, now)
    requires n in due <==> OnTimer(tpdos[n]) && n in start && now >= start[n]
    ensures OnTimer(tpdos[n]) && n in current && now >= current[n] <==> n in due
    ensures Deadlines(start, tpdos, due - (remaining - {n}), now)
         == if n in due then current[n := now + Period(tpdos[n])] else current
  {
  }

  lemma TimedAttemptsNext(order: seq<u16>, now: Time, n: u16)
    ensures TimedAttempts(order + [n], now) == TimedAttempts(order, now) + [TimerTpdo(n, now)]
  {
  }

  /** What an attempt of the transmit loop hands to the kernel; beat is the heartbeat frame. */
  function LoopFrames(open: bool, tpdos: TpdoMap, d: Dictionary, table: PdoTable, beat: Frame): Attempt -> seq<Frame> {
    (a: Attempt) =>
      if !open then []
      else if a.TimerTpdo? then Encoding(tpdos, d, table)(a.number)
      else if a.LoopHeartbeat? then [beat]
      else []
  }

  lemma {:induction false} TimedFrames(open: bool, tpdos: TpdoMap, d: Dictionary, table: PdoTable, beat: Frame,
                                       order: seq<u16>, now: Time)
    ensures FlatMap(LoopFrames(open, tpdos, d, table, beat), TimedAttempts(order, now))
         == Emitted(open, tpdos, d, table, order)
  {
    if order != [] {
      var front, last := order[..|order| - 1], order[|order| - 1];
      TimedFrames(open, tpdos, d, table, beat, front, now);
      assert order == front + [last];
      TimedAttemptsNext(front, now, last);
      FlatMapNext(LoopFrames(open, tpdos, d, table, beat), TimedAttempts(front, now), TimerTpdo(last, now));
    }
  }

  /** The attempts of one iteration. */
  ghost function IterationLog(beat: bool, order: seq<u16>, now: Time): seq<Attempt> {
    (if beat then [LoopHeartbeat(now)] else []) + TimedAttempts(order, now)
  }

  /** The frames of one iteration are those of its attempts, in order. */
  lemma IterationFrames(open: bool, tpdos: TpdoMap, d: Dictionary, table: PdoTable, frame: Frame,
                        beat: bool, order: seq<u16>, now: Time)
    ensures FlatMap(LoopFrames(open, tpdos, d, table, frame), IterationLog(beat, order, now))
         == (if open && beat then [frame] else []) + Emitted(open, tpdos, d, table, order)
  {
    var f := LoopFrames(open, tpdos, d, table, frame);
    var first := if beat then [LoopHeartbeat(now)] else [];
    FlatMapAppend(f, first, TimedAttempts(order, now));
    TimedFrames(open, tpdos, d, table, frame, order, now);
    if beat {
      FlatMapOne(f, LoopHeartbeat(now));
    }
  }

  /** One more iteration at the end of a run's log and writes. */
  lemma RunFramesNext(f: Attempt -> seq<Frame>, log: seq<Attempt>, sent: seq<Write>, more: seq<Attempt>,
                      moreSent: seq<Write>)
    requires FramesOf(sent) == FlatMap(f, log) && FramesOf(moreSent) == FlatMap(f, more)
    ensures FramesOf(sent + moreSent) == FlatMap(f, log + more)
  {
    FlatMapAppend(f, log, more);
    FlatMapAppend(FrameOf(), sent, moreSent);
  }

  class SocketCanTransport {
    const simulator: CanNodeSimulator
    const nodeId: u8
    var rpdoByCobId: map<nat, Pdo>
    var tpdoByNumber: TpdoMap
    var nextAsyncDue: map<u16, Time>
    var nextHeartbeatDue: Time
    var nmtState: u8
    var running: bool
    var socketOpen: bool

    /** Every write system call so far: what the bus has seen of this node. */
    var writes: seq<Write>

    /** Every send so far with its cause. */
    ghost var attempts: seq<Attempt>

    /** Every atomic access to the NMT state so far, and what the transmit thread has loaded and not stored yet. */
    ghost var nmtEvents: seq<Nmt.Event>
    ghost var nmtLoaded: Option<u8>

    /** The state byte is where the accesses made so far leave it. */
    ghost predicate NmtTracked()
      reads this`nmtState, this`nmtEvents, this`nmtLoaded
    {
      && Nmt.Legal(Nmt.INITIAL, nmtEvents)
      && Nmt.Run(Nmt.INITIAL, nmtEvents) == Nmt.Nmt(nmtState, nmtLoaded)
    }

    ghost predicate Valid()
      reads this
    {
      && (running <==> socketOpen)
      && (forall n :: n in tpdoByNumber && OnTimer(tpdoByNumber[n]) ==> n in nextAsyncDue)
      && (forall n :: n in tpdoByNumber ==> tpdoByNumber[n].number == n)
    }

    /** Every attempt so far was for a TPDO of the route that made it. */
    ghost predicate RoutesSeparate()
      reads this
    {
      RoutesRespected(attempts, tpdoByNumber)
    }

    /** The transport's PDOs are the ones the simulator finds under the same direction and number. */
    ghost predicate Coherent()
      reads this, simulator
    {
      && (forall n :: n in tpdoByNumber ==> RequirePdo(simulator.pdoByKey, Transmit, n) == Some(tpdoByNumber[n]))
      && (forall c :: c in rpdoByCobId ==>
            RequirePdo(simulator.pdoByKey, Receive, rpdoByCobId[c].number) == Some(rpdoByCobId[c]))
    }

    /** What SendTpdo would put on the wire for a number now. */
    ghost function NextFrame(number: u16): Result<Frame>
      reads this, simulator
    {
      TpdoFrame(tpdoByNumber, simulator.dictionary, simulator.pdoByKey, number)
    }

    /** The frames a walk over the numbers hands to the kernel. */
    ghost function FramesFor(order: seq<u16>): seq<Frame>
      reads this, simulator
    {
      Emitted(socketOpen, tpdoByNumber, simulator.dictionary, simulator.pdoByKey, order)
    }

    ghost function SyncNumbers(): set<u16>
      reads this
    {
      set n | n in tpdoByNumber && OnSync(tpdoByNumber[n])
    }

    ghost function TimerDue(now: Time): set<u16>
      requires Valid()
      reads this
    {
      set n | n in tpdoByNumber && OnTimer(tpdoByNumber[n]) && now >= nextAsyncDue[n]
    }

    /** What the loop's heartbeat puts on the wire now. */
    ghost function BeatFrame(): Frame
      reads this
    {
      MakeFrame(HEARTBEAT_BASE_COB_ID + nodeId, [nmtState])
    }

    /** What each attempt of the transmit loop hands to the kernel now. */
    ghost function FramesOfAttempt(): Attempt -> seq<Frame>
      reads this, simulator
    {
      LoopFrames(socketOpen, tpdoByNumber, simulator.dictionary, simulator.pdoByKey, BeatFrame())
    }

    /** Iterations at the given times took the heartbeat's deadline and the log from due and log to where they are. */
    ghost predicate HeartbeatFollows(due: Time, log: seq<Attempt>, times: seq<Time>)
      reads this
    {
      && nextHeartbeatDue == DueAfter(due, SECOND, times)
      && HeartbeatAttempts(attempts) == HeartbeatAttempts(log) + FireTimes(due, SECOND, times)
    }

    /** The same for the deadline and the attempts of every timer TPDO. */
    ghost predicate TimersFollow(due: map<u16, Time>, log: seq<Attempt>, times: seq<Time>)
      reads this
    {
      TimersFollowed(tpdoByNumber, due, log, nextAsyncDue, attempts, times)
    }

    constructor (simulator: CanNodeSimulator, pdos: seq<Pdo>, nodeId: u8, now: Time)
      ensures Valid() && RoutesSeparate()
      ensures this.simulator == simulator && this.nodeId == nodeId
      ensures rpdoByCobId == LastWins(pdos, RpdoKey)
      ensures tpdoByNumber == LastWins(pdos, TpdoKey)
      ensures forall n :: n in tpdoByNumber && OnTimer(tpdoByNumber[n]) ==>
                nextAsyncDue[n] == now + tpdoByNumber[n].communication.eventTimer * 1_000_000
      ensures nextHeartbeatDue == now + 1_000_000_000
      ensures nmtState == Nmt.PRE_OPERATIONAL && !running && writes == [] && attempts == []
      ensures NmtTracked() && nmtEvents == [] && nmtLoaded == None
    {
      this.simulator := simulator;
      this.nodeId := nodeId;
      rpdoByCobId, tpdoByNumber, nextAsyncDue := map[], map[], map[];
      nextHeartbeatDue := now + SECOND;
      nmtState := Nmt.PRE_OPERATIONAL;
      running, socketOpen := false, false;
      writes, attempts := [], [];
      nmtEvents, nmtLoaded := [], None;
      new;
      for i := 0 to |pdos|
        invariant rpdoByCobId == LastWins(pdos[..i], RpdoKey)
        invariant tpdoByNumber == LastWins(pdos[..i], TpdoKey)
        invariant forall n :: n in tpdoByNumber ==> tpdoByNumber[n].number == n
        invariant forall n :: n in tpdoByNumber && OnTimer(tpdoByNumber[n]) ==>
                    n in nextAsyncDue && nextAsyncDue[n] == now + Period(tpdoByNumber[n])
        invariant nextHeartbeatDue == now + SECOND && nmtState == Nmt.PRE_OPERATIONAL
        invariant !running && !socketOpen && writes == [] && attempts == [] && nmtEvents == [] && nmtLoaded == None
      {
        var pdo := pdos[i];
        assert pdos[..i + 1][..i] == pdos[..i];
        if pdo.direction.Receive? {
          rpdoByCobId := rpdoByCobId[Mask(pdo.communication.cobId) := pdo];
        } else {
          tpdoByNumber := tpdoByNumber[pdo.number := pdo];
          if OnTimer(pdo) {
            nextAsyncDue := nextAsyncDue[pdo.number := now + Period(pdo)];
          }
        }
      }
      assert pdos[..|pdos|] == pdos;
    }

    // ----- Lifecycle -----

    /** Opens the socket; each of the five system calls may fail, and then the socket is closed again. */
    method Start() returns (r: Result<()>)
      requires Valid()
      modifies this`running, this`socketOpen
      ensures Valid()
      ensures old(running) ==> r == Err(AlreadyRunning) && running
      ensures !old(running) ==> (r == Ok(()) && running) || (r == Err(SocketSetupFailed) && !running)
    {
      if running {
        return Err(AlreadyRunning);
      }
      var created: bool := *;
      if !created {
        return Err(SocketSetupFailed);
      }
      socketOpen := true;
      var step := 0;
      while step < 4  // interface lookup, bind, receive timeout, send timeout
        invariant 0 <= step <= 4 && socketOpen && !running
      {
        var succeeded: bool := *;
        if !succeeded {
          socketOpen := false;
          return Err(SocketSetupFailed);
        }
        step := step + 1;
      }
      running := true;
      return Ok(());
    }

    method Stop()
      requires Valid()
      modifies this`running, this`socketOpen
      ensures Valid() && !running
    {
      var wasRunning := running;
      running := false;
      if !wasRunning {
        return;
      }
      socketOpen := false;
    }

    // ----- Sending -----

    method SendRawFrame(canId: u32, payload: seq<u8>) returns (r: Result<()>)
      modifies this`writes
      ensures if !socketOpen then r == Err(NotStarted) && writes == old(writes)
              else if |payload| > CAN_MAX_DATA_LEN then r == Err(PayloadTooLong) && writes == old(writes)
              else
                && writes == old(writes) + [Write(MakeFrame(canId, payload), r.Ok?)]
                && (r == Ok(()) || r == Err(WriteFailed))
    {
      if !socketOpen {
        return Err(NotStarted);
      }
      if |payload| > CAN_MAX_DATA_LEN {
        return Err(PayloadTooLong);
      }
      var frame := MakeFrame(canId, payload);
      var ok: bool := *;
      writes := writes + [Write(frame, ok)];
      if !ok {
        return Err(WriteFailed);
      }
      return Ok(());
    }

    method SendTpdo(number: u16, ghost cause: Attempt) returns (r: Result<()>, ghost sent: seq<Write>)
      modifies this`writes, this`attempts
      ensures attempts == old(attempts) + [cause]
      ensures writes == old(writes) + sent && FramesOf(sent) == FramesFor([number])
      ensures match old(NextFrame(number))
              case Err(e) => r == Err(e) && sent == []
              case Ok(frame) =>
                if !socketOpen then r == Err(NotStarted) && sent == []
                else sent == [Write(frame, r.Ok?)] && (r == Ok(()) || r == Err(WriteFailed))
    {
      attempts := attempts + [cause];
      sent := [];
      FlatMapOne(Encoding(tpdoByNumber, simulator.dictionary, simulator.pdoByKey), number);
      if number !in tpdoByNumber {
        return Err(TpdoMissing), [];
      }
      var payload := EncodePdoPayload(tpdoByNumber[number], simulator);
      if payload.Err? {
        return Err(payload.error), [];
      }
      r := SendRawFrame(tpdoByNumber[number].communication.cobId, payload.value);
      sent := writes[|old(writes)|..];
      if sent != [] {
        FlatMapOne(FrameOf(), sent[0]);
      }
    }

    method SendNmtCommand(command: u8, target: u8) returns (r: Result<()>)
      requires NmtTracked()
      modifies this`writes, this`nmtState, this`nmtEvents
      ensures NmtTracked()
      ensures if !socketOpen then r == Err(NotStarted) && writes == old(writes)
              else
                && writes == old(writes) + [Write(MakeFrame(NMT_COB_ID, [command, target]), r.Ok?)]
                && (r == Ok(()) || r == Err(WriteFailed))
      ensures var state := Nmt.NmtCommandToState(command);
              if r.Ok? && (target == 0 || target == nodeId)
              then nmtState == state && nmtEvents == old(nmtEvents) + [Nmt.Explicit(state)]
              else nmtState == old(nmtState) && nmtEvents == old(nmtEvents)
    {
      var _ :- SendRawFrame(NMT_COB_ID, [command, target]);
      if target == 0 || target == nodeId {
        nmtState := Nmt.NmtCommandToState(command);
        Nmt.RunNext(Nmt.INITIAL, nmtEvents, Nmt.Explicit(nmtState));
        nmtEvents := nmtEvents + [Nmt.Explicit(nmtState)];
      }
      return Ok(());
    }

    /** The transmit thread's load; other threads may act before the heartbeat that uses the value. */
    method LoadNmtState() returns (state: u8)
      requires NmtTracked() && nmtLoaded.None?
      modifies this`nmtEvents, this`nmtLoaded
      ensures NmtTracked() && state == nmtState && nmtLoaded == Some(state)
      ensures nmtEvents == old(nmtEvents) + [Nmt.Load]
    {
      state := nmtState;
      Nmt.RunNext(Nmt.INITIAL, nmtEvents, Nmt.Load);
      nmtEvents, nmtLoaded := nmtEvents + [Nmt.Load], Some(state);
    }

    /** Stores the state first: it stays even when the frame cannot be sent. The loop sends what it loaded. */
    method SendHeartbeat(state: u8, ghost cause: Attempt) returns (r: Result<()>)
      requires NmtTracked() && (cause.LoopHeartbeat? ==> nmtLoaded == Some(state))
      modifies this`writes, this`nmtState, this`attempts, this`nmtEvents, this`nmtLoaded
      ensures NmtTracked()
      ensures nmtState == state && attempts == old(attempts) + [cause]
      ensures nmtEvents == old(nmtEvents) + [if cause.LoopHeartbeat? then Nmt.LoopStore else Nmt.Explicit(state)]
      ensures nmtLoaded == if cause.LoopHeartbeat? then None else old(nmtLoaded)
      ensures if !socketOpen then r == Err(NotStarted) && writes == old(writes)
              else
                && writes == old(writes) + [Write(MakeFrame(HEARTBEAT_BASE_COB_ID + nodeId, [state]), r.Ok?)]
                && (r == Ok(()) || r == Err(WriteFailed))
    {
      ghost var event := if cause.LoopHeartbeat? then Nmt.LoopStore else Nmt.Explicit(state);
      attempts := attempts + [cause];
      Nmt.RunNext(Nmt.INITIAL, nmtEvents, event);
      nmtEvents, nmtLoaded := nmtEvents + [event], if cause.LoopHeartbeat? then None else nmtLoaded;
      nmtState := state;
      r := SendRawFrame(HEARTBEAT_BASE_COB_ID + nodeId, [state]);
    }

    method SendEmcy(errorCode: u16, errorRegister: u8, manufacturerData: seq<u8>) returns (r: Result<()>)
      modifies this`writes
      ensures |manufacturerData| > 5 ==> r == Err(EmcyDataTooLong) && writes == old(writes)
      ensures |manufacturerData| <= 5 && !socketOpen ==> r == Err(NotStarted) && writes == old(writes)
      ensures |manufacturerData| <= 5 && socketOpen ==>
                var payload := [errorCode % 256, errorCode / 256, errorRegister] + manufacturerData
                               + Zeros(5 - |manufacturerData|);
                && writes == old(writes) + [Write(MakeFrame(EMCY_BASE_COB_ID + nodeId, payload), r.Ok?)]
                && (r == Ok(()) || r == Err(WriteFailed))
    {
      if |manufacturerData| > 5 {
        return Err(EmcyDataTooLong);
      }
      LeBytesNext(errorCode, 0);
      LeBytesNext(errorCode, 1);
      LeBytesAt(errorCode, 2, 0);
      LeBytesAt(errorCode, 2, 1);
      PowConstants();
      var payload: seq<u8> := [ByteAt(errorCode, 0), ByteAt(errorCode, 1), errorRegister] + manufacturerData;
      ghost var start := payload;
      while |payload| < CAN_MAX_DATA_LEN
        invariant |start| <= |payload| <= CAN_MAX_DATA_LEN
        invariant payload == start + Zeros(|payload| - |start|)
      {
        payload := payload + [0];
      }
      assert start == [errorCode % 256, errorCode / 256, errorRegister] + manufacturerData;
      r := SendRawFrame(EMCY_BASE_COB_ID + nodeId, payload);
    }

    // ----- The SYNC route -----

    /** Attempts every synchronous TPDO once, in the order the hash map yields them; a failure stops nothing. */
    method SendSynchronousTpdos() returns (ghost order: seq<u16>, ghost sent: seq<Write>)
      requires Valid()
      modifies this`writes, this`attempts
      ensures Valid()
      ensures Enumerates(order, SyncNumbers())
      ensures attempts == old(attempts) + SyncAttempts(order)
      ensures writes == old(writes) + sent && FramesOf(sent) == FramesFor(order)
    {
      order, sent := [], [];
      ghost var open, tpdos, d, table := socketOpen, tpdoByNumber, simulator.dictionary, simulator.pdoByKey;
      ghost var wanted := SyncNumbers();
      var remaining := tpdoByNumber.Keys;
      while remaining != {}
        invariant remaining <= tpdos.Keys
        invariant Enumerates(order, wanted - remaining)
        invariant attempts == old(attempts) + SyncAttempts(order)
        invariant writes == old(writes) + sent && FramesOf(sent) == Emitted(open, tpdos, d, table, order)
        decreases |remaining|
      {
        var number :| number in remaining;
        EnumeratesVisit(order, wanted, remaining, number);
        remaining := remaining - {number};
        if IsSynchronous(tpdoByNumber[number].communication.transmissionType) {
          var outcome, more := SendTpdo(number, SyncTpdo(number));
          EmittedNext(open, tpdos, d, table, order, number, sent, more);
          Associative(old(writes), sent, more);
          assert SyncAttempts(order + [number]) == SyncAttempts(order) + [SyncTpdo(number)];
          Associative(old(attempts), SyncAttempts(order), [SyncTpdo(number)]);
          order, sent := order + [number], sent + more;
        }
      }
      assert wanted - {} == wanted;
    }

    // ----- The timer route -----

    /** The body of the timer loop: a due TPDO is attempted and its deadline moved, whether or not the send works. */
    method VisitTimer(number: u16, now: Time) returns (ghost fired: bool, ghost sent: seq<Write>)
      requires number in tpdoByNumber
      modifies this`writes, this`attempts, this`nextAsyncDue
      ensures fired <==> OnTimer(tpdoByNumber[number])
                         && number in old(nextAsyncDue) && now >= old(nextAsyncDue)[number]
      ensures if fired then
                && attempts == old(attempts) + [TimerTpdo(number, now)]
                && writes == old(writes) + sent && FramesOf(sent) == FramesFor([number])
                && nextAsyncDue == old(nextAsyncDue)[number := now + Period(tpdoByNumber[number])]
              else attempts == old(attempts) && writes == old(writes) && nextAsyncDue == old(nextAsyncDue)
    {
      fired, sent := false, [];
      var pdo := tpdoByNumber[number];
      if !OnTimer(pdo) {
        return;
      }
      if number !in nextAsyncDue || now < nextAsyncDue[number] {
        return;
      }
      var outcome;
      fired := true;
      outcome, sent := SendTpdo(number, TimerTpdo(number, now));
      nextAsyncDue := nextAsyncDue[number := now + Period(pdo)];
    }

    /**
     A timer walk at time now over all TPDOs but the remaining ones, begun with the given deadlines and logs:
     the due ones among those visited are attempted in the given order.
     */
    ghost predicate TimerWalk(now: Time, due: set<u16>, start: map<u16, Time>, log: seq<Attempt>, wire: seq<Write>,
                              remaining: set<u16>, order: seq<u16>, sent: seq<Write>)
      reads this, simulator
    {
      && Enumerates(order, due - remaining)
      && attempts == log + TimedAttempts(order, now)
      && writes == wire + sent && FramesOf(sent) == FramesFor(order)
      && nextAsyncDue == Deadlines(start, tpdoByNumber, due - remaining, now)
    }

    /** One more step of a timer walk. */
    method WalkTimer(number: u16, now: Time, ghost due: set<u16>, ghost start: map<u16, Time>, ghost log: seq<Attempt>,
                     ghost wire: seq<Write>, ghost remaining: set<u16>, ghost order: seq<u16>, ghost sent: seq<Write>)
      returns (ghost order': seq<u16>, ghost sent': seq<Write>)
      requires TimerWalk(now, due, start, log, wire, remaining, order, sent)
      requires number in remaining && number in tpdoByNumber
      requires number in due <==> OnTimer(tpdoByNumber[number]) && number in start && now >= start[number]
      modifies this`writes, this`attempts, this`nextAsyncDue
      ensures TimerWalk(now, due, start, log, wire, remaining - {number}, order', sent')
    {
      EnumeratesVisit(order, due, remaining, number);
      DeadlinesVisit(start, tpdoByNumber, due, remaining, now, number, nextAsyncDue);
      ghost var fired, more := VisitTimer(number, now);
      order', sent' := order, sent;
      if fired {
        EmittedNext(socketOpen, tpdoByNumber, simulator.dictionary, simulator.pdoByKey, order, number, sent, more);
        TimedAttemptsNext(order, now, number);
        Associative(wire, sent, more);
        Associative(log, TimedAttempts(order, now), [TimerTpdo(number, now)]);
        order', sent' := order + [number], sent + more;
      }
    }

    /** The timer loop of one iteration, in the order the hash map yields the TPDOs. */
    method SendDueTpdos(now: Time, ghost due: set<u16>) returns (ghost order: seq<u16>, ghost sent: seq<Write>)
      requires Valid() && due == TimerDue(now)
      modifies this`writes, this`attempts, this`nextAsyncDue
      ensures Enumerates(order, due)
      ensures attempts == old(attempts) + TimedAttempts(order, now)
      ensures writes == old(writes) + sent && FramesOf(sent) == FramesFor(order)
      ensures nextAsyncDue == Deadlines(old(nextAsyncDue), tpdoByNumber, due, now)
    {
      order, sent := [], [];
      ghost var tpdos, start, log, wire := tpdoByNumber, nextAsyncDue, attempts, writes;
      var remaining := tpdoByNumber.Keys;
      while remaining != {}
        invariant remaining <= tpdos.Keys
        invariant TimerWalk(now, due, start, log, wire, remaining, order, sent)
        decreases |remaining|
      {
        var number :| number in remaining;
        order, sent := WalkTimer(number, now, due, start, log, wire, remaining, order, sent);
        remaining := remaining - {number};
      }
      assert due - {} == due;
    }

    /** One iteration of the transmit loop at clock time now. */
    method TxIteration(now: Time) returns (ghost order: seq<u16>, ghost sent: seq<Write>)
      requires Valid() && NmtTracked() && nmtLoaded.None?
      modifies this`writes, this`attempts, this`nmtState, this`nmtEvents, this`nmtLoaded,
        this`nextHeartbeatDue, this`nextAsyncDue
      ensures Valid() && NmtTracked() && nmtLoaded.None? && nmtState == old(nmtState)
      ensures old(RoutesSeparate()) ==> RoutesSeparate()
      ensures nmtEvents == old(nmtEvents) + if now >= old(nextHeartbeatDue) then [Nmt.Load, Nmt.LoopStore] else []
      ensures nextHeartbeatDue == NextDue(old(nextHeartbeatDue), SECOND, now)
      ensures Enumerates(order, old(TimerDue(now)))
      ensures attempts == old(attempts) + IterationLog(now >= old(nextHeartbeatDue), order, now)
      ensures writes == old(writes) + sent
      ensures FramesOf(sent)
           == (if socketOpen && now >= old(nextHeartbeatDue) then [BeatFrame()] else []) + FramesFor(order)
      ensures nextAsyncDue == Deadlines(old(nextAsyncDue), tpdoByNumber, old(TimerDue(now)), now)
    {
      ghost var beat, first := VisitHeartbeat(now);
      ghost var log := attempts;
      order, sent := SendDueTpdos(now, TimerDue(now));
      if old(RoutesSeparate()) {
        TimedRoutesRespected(log, order, now, tpdoByNumber);
      }
      Associative(old(attempts), if beat then [LoopHeartbeat(now)] else [], TimedAttempts(order, now));
      Associative(old(writes), first, sent);
      FlatMapAppend(FrameOf(), first, sent);
      sent := first + sent;
    }

    /** The heartbeat part of an iteration: a due heartbeat is sent with the loaded state and its deadline moved. */
    method VisitHeartbeat(now: Time) returns (ghost beat: bool, ghost sent: seq<Write>)
      requires Valid() && NmtTracked() && nmtLoaded.None?
      modifies this`writes, this`attempts, this`nmtState, this`nmtEvents, this`nmtLoaded, this`nextHeartbeatDue
      ensures Valid() && NmtTracked() && nmtLoaded.None? && nmtState == old(nmtState)
      ensures old(RoutesSeparate()) ==> RoutesSeparate()
      ensures beat <==> now >= old(nextHeartbeatDue)
      ensures nextHeartbeatDue == NextDue(old(nextHeartbeatDue), SECOND, now)
      ensures nmtEvents == old(nmtEvents) + if beat then [Nmt.Load, Nmt.LoopStore] else []
      ensures attempts == old(attempts) + if beat then [LoopHeartbeat(now)] else []
      ensures writes == old(writes) + sent
      ensures FramesOf(sent) == if socketOpen && beat then [BeatFrame()] else []
    {
      beat, sent := now >= nextHeartbeatDue, [];
      if now >= nextHeartbeatDue {
        var state := LoadNmtState();
        var _ := SendHeartbeat(state, LoopHeartbeat(now));
        nextHeartbeatDue := now + SECOND;
        sent := writes[|old(writes)|..];
        if sent != [] {
          FlatMapOne(FrameOf(), sent[0]);
        }
      }
    }

    /**
     The transmit loop over a run of iterations, until it is told to stop: deadlines and attempts are
     those of the deadline rule, and the frames written are those of the attempts, in order.
     */
    method TxLoop(times: seq<Time>) returns (ghost log: seq<Attempt>, ghost sent: seq<Write>)
      requires Valid() && NmtTracked() && nmtLoaded.None?
      modifies this`writes, this`attempts, this`nmtState, this`nmtEvents, this`nmtLoaded,
        this`nextHeartbeatDue, this`nextAsyncDue
      ensures Valid() && NmtTracked() && nmtLoaded.None? && nmtState == old(nmtState)
      ensures old(RoutesSeparate()) ==> RoutesSeparate()
      ensures HeartbeatFollows(old(nextHeartbeatDue), old(attempts), times)
      ensures TimersFollow(old(nextAsyncDue), old(attempts), times)
      ensures attempts == old(attempts) + log && writes == old(writes) + sent
      ensures FramesOf(sent) == FlatMap(FramesOfAttempt(), log)
    {
      log, sent := [], [];
      ghost var due, dues, start, wire := nextHeartbeatDue, nextAsyncDue, attempts, writes;
      for i := 0 to |times|
        invariant Valid() && NmtTracked() && nmtLoaded.None? && nmtState == old(nmtState)
        invariant old(RoutesSeparate()) ==> RoutesSeparate()
        invariant LoopRun(due, dues, start, wire, times[..i], log, sent)
      {
        log, sent := NextIteration(due, dues, start, wire, times, i, log, sent);
      }
      assert times[..|times|] == times;
    }

    /** Iterations at the given times took the transmit loop from the given deadlines and logs to where it is. */
    ghost predicate LoopRun(due: Time, dues: map<u16, Time>, start: seq<Attempt>, wire: seq<Write>,
                            times: seq<Time>, log: seq<Attempt>, sent: seq<Write>)
      reads this, simulator
    {
      && HeartbeatFollows(due, start, times)
      && TimersFollow(dues, start, times)
      && attempts == start + log && writes == wire + sent
      && FramesOf(sent) == FlatMap(FramesOfAttempt(), log)
    }

    /** One more iteration of a run of the transmit loop. */
    method NextIteration(ghost due: Time, ghost dues: map<u16, Time>, ghost start: seq<Attempt>, ghost wire: seq<Write>,
                         times: seq<Time>, i: nat, ghost log: seq<Attempt>, ghost sent: seq<Write>)
      returns (ghost log': seq<Attempt>, ghost sent': seq<Write>)
      requires Valid() && NmtTracked() && nmtLoaded.None?
      requires i < |times| && LoopRun(due, dues, start, wire, times[..i], log, sent)
      modifies this`writes, this`attempts, this`nmtState, this`nmtEvents, this`nmtLoaded,
        this`nextHeartbeatDue, this`nextAsyncDue
      ensures Valid() && NmtTracked() && nmtLoaded.None? && nmtState == old(nmtState)
      ensures old(RoutesSeparate()) ==> RoutesSeparate()
      ensures LoopRun(due, dues, start, wire, times[..i + 1], log', sent')
    {
      var now := times[i];
      ghost var before, beat := attempts, now >= nextHeartbeatDue;
      ghost var order, more := TxIteration(now);
      HeartbeatRunNext(start, before, beat, order, due, SECOND, times, i);
      forall n | n in tpdoByNumber && OnTimer(tpdoByNumber[n])
        ensures TimerFollowed(tpdoByNumber[n], n, dues, start, nextAsyncDue, attempts, times[..i + 1])
      {
        assert old(TimerFollowed(tpdoByNumber[n], n, dues, start, nextAsyncDue, attempts, times[..i]));
        TimerRunNext(start, before, beat, order, n, dues[n], Period(tpdoByNumber[n]), times, i);
      }
      IterationFrames(socketOpen, tpdoByNumber, simulator.dictionary, simulator.pdoByKey, BeatFrame(),
                      beat, order, now);
      RunFramesNext(FramesOfAttempt(), log, sent, IterationLog(beat, order, now), more);
      Associative(start, log, IterationLog(beat, order, now));
      Associative(wire, sent, more);
      log', sent' := log + IterationLog(beat, order, now), sent + more;
    }

    /** Another run of the loop, after a run that left the deadlines and the log as they are. */
    method Resume(ghost due: Time, ghost dues: map<u16, Time>, ghost start: seq<Attempt>, ghost first: seq<Time>,
                  second: seq<Time>)
      requires Valid() && NmtTracked() && nmtLoaded.None?
      requires HeartbeatFollows(due, start, first) && TimersFollow(dues, start, first)
      modifies this`writes, this`attempts, this`nmtState, this`nmtEvents, this`nmtLoaded,
        this`nextHeartbeatDue, this`nextAsyncDue
      ensures Valid()
      ensures HeartbeatFollows(due, start, first + second) && TimersFollow(dues, start, first + second)
    {
      ghost var middleDue, middleDues, middle := nextHeartbeatDue, nextAsyncDue, attempts;
      ghost var log, sent := TxLoop(second);
      LogsCompose(HeartbeatAttempts(start), HeartbeatAttempts(middle), HeartbeatAttempts(attempts),
                  due, middleDue, SECOND, first, second);
      TimersCompose(tpdoByNumber, dues, start, middleDues, middle, nextAsyncDue, attempts, first, second);
    }

    // ----- Receiving -----

    method HandleFrame(canId: nat, data: seq<u8>, dlc: nat) returns (ghost order: seq<u16>, ghost sent: seq<Write>)
      requires Valid()
      requires canId < 0x800 && |data| == CAN_MAX_DATA_LEN && dlc <= CAN_MAX_DATA_LEN
      modifies this`writes, this`attempts, simulator`dictionary
      ensures Valid() && (old(RoutesSeparate()) ==> RoutesSeparate())
      ensures Classify(canId) == Sync ==>
                && simulator.dictionary == old(simulator.dictionary)
                && Enumerates(order, SyncNumbers())
                && attempts == old(attempts) + SyncAttempts(order)
                && writes == old(writes) + sent
                && FramesOf(sent) == FramesFor(order)
      ensures Classify(canId) != Sync ==> writes == old(writes) && attempts == old(attempts)
      ensures Classify(canId) != Process || canId !in rpdoByCobId ==>
                simulator.dictionary == old(simulator.dictionary)
      ensures Classify(canId) == Process && canId in rpdoByCobId ==>
                var pdo, payload := rpdoByCobId[canId], data[..dlc];
                && FitsWord(pdo.signals, payload)
                && simulator.dictionary
                   == Applied(old(simulator.dictionary), simulator.pdoByKey, pdo, payload,
                              FirstRefused(old(simulator.dictionary), simulator.pdoByKey, pdo, payload, 0))
    {
      order, sent := [], [];
      if canId == SYNC_COB_ID {
        order, sent := SendSynchronousTpdos();
        if old(RoutesSeparate()) {
          SyncRoutesRespected(old(attempts), order, tpdoByNumber);
        }
        return;
      }
      if Window(canId) == HEARTBEAT_BASE_COB_ID || Window(canId) == EMCY_BASE_COB_ID {
        return;
      }
      if canId !in rpdoByCobId {
        return;
      }
      var _ := DecodePdoPayload(rpdoByCobId[canId], data[..dlc], simulator);
    }

    /** The receive loop's body: the raw identifier is cut to 11 bits before dispatch. */
    method ReceiveFrame(rawId: u32, data: seq<u8>, dlc: nat) returns (ghost order: seq<u16>, ghost sent: seq<Write>)
      requires Valid() && |data| == CAN_MAX_DATA_LEN && dlc <= CAN_MAX_DATA_LEN
      modifies this`writes, this`attempts, simulator`dictionary
      ensures Valid() && (old(RoutesSeparate()) ==> RoutesSeparate())
      ensures rawId % 0x800 != SYNC_COB_ID ==> writes == old(writes) && attempts == old(attempts)
      ensures rawId % 0x800 == SYNC_COB_ID ==>
                && simulator.dictionary == old(simulator.dictionary)
                && Enumerates(order, SyncNumbers())
                && attempts == old(attempts) + SyncAttempts(order)
                && writes == old(writes) + sent && FramesOf(sent) == FramesFor(order)
      ensures 0x80 <= rawId % 0x800 < 0x100 || 0x700 <= rawId % 0x800 < 0x780 || rawId % 0x800 !in rpdoByCobId ==>
                simulator.dictionary == old(simulator.dictionary)
      ensures Mask(rawId) < 0x800
      ensures Classify(Mask(rawId)) == Process && Mask(rawId) in rpdoByCobId ==>
                var pdo, payload := rpdoByCobId[Mask(rawId)], data[..dlc];
                && FitsWord(pdo.signals, payload)
                && simulator.dictionary
                   == Applied(old(simulator.dictionary), simulator.pdoByKey, pdo, payload,
                              FirstRefused(old(simulator.dictionary), simulator.pdoByKey, pdo, payload, 0))
    {
      MaskIsRemainder(rawId);
      ClassifyByRange(Mask(rawId));
      order, sent := HandleFrame(Mask(rawId), data, dlc);
    }
  }

  /** The state an NMT command asks for: operational, stopped, pre-operational, and initialising for all others. */
  function RequestedState(command: u8): u8 {
    match command
    case 1 => 5
    case 2 => 4
    case 128 => 127
    case _ => 0
  }

  /**
   An NMT command and the loop heartbeat after it: identifier 0 with command and target, then
   0x700 + node number with the state asked for when the command is for all nodes or this one, and
   the state as it was otherwise.
   */
  method CommandThenHeartbeat(transport: SocketCanTransport, command: u8, target: u8, now: Time)
    returns (r: Result<()>)
    requires transport.Valid() && transport.NmtTracked() && transport.nmtLoaded.None?
    requires now >= transport.nextHeartbeatDue
    modifies transport
    ensures var wire := old(transport.writes);
            var state := if target == 0 || target == transport.nodeId then RequestedState(command)
                         else old(transport.nmtState);
            r.Ok? ==>
              && |transport.writes| >= |wire| + 2 && transport.writes[..|wire|] == wire
              && transport.writes[|wire|].frame == Frame(0, [command, target, 0, 0, 0, 0, 0, 0], 2)
              && transport.writes[|wire| + 1].frame
                 == Frame(0x700 + transport.nodeId, [state, 0, 0, 0, 0, 0, 0, 0], 1)
              && transport.nmtState == state
    ensures r.Err? ==> transport.nmtState == old(transport.nmtState)
  {
    ghost var wire := transport.writes;
    r := transport.SendNmtCommand(command, target);
    if r.Err? {
      return;
    }
    ghost var order, sent := transport.TxIteration(now);
    FramesOneByOne(sent);
    assert FramesOf(sent)[0] == transport.BeatFrame();
    assert transport.writes == wire + [transport.writes[|wire|]] + sent;
    MaskOfSmall(0);
    MaskOfSmall(0x700 + transport.nodeId);
  }

  /**
   A SYNC answered: every TPDO of type 1 to 240 is attempted exactly once and no other, and while the
   socket is open the frame of each of them that encodes is written, and no other frame.
   */
  method AnswerSync(transport: SocketCanTransport, rawId: u32, data: seq<u8>, dlc: nat)
    returns (ghost log: seq<Attempt>, ghost sent: seq<Write>)
    requires transport.Valid() && rawId % 0x800 == 0x80 && |data| == 8 && dlc <= 8
    modifies transport`writes, transport`attempts, transport.simulator`dictionary
    ensures transport.simulator.dictionary == old(transport.simulator.dictionary)
    ensures transport.attempts == old(transport.attempts) + log && transport.writes == old(transport.writes) + sent
    ensures forall a :: a in log ==> a.SyncTpdo?
    ensures var tpdos := transport.tpdoByNumber;
            forall n: u16 :: multiset(log)[SyncTpdo(n)] ==
              if n in tpdos && 1 <= tpdos[n].communication.transmissionType <= 240 then 1 else 0
    ensures !transport.socketOpen ==> sent == []
    ensures transport.socketOpen ==> forall f :: Wrote(sent, f) <==> AnswersSync(transport, f)
  {
    ghost var order;
    order, sent := transport.ReceiveFrame(rawId, data, dlc);
    log := SyncAttempts(order);
    forall n: u16
      ensures multiset(log)[SyncTpdo(n)] == if n in transport.SyncNumbers() then 1 else 0
    {
      SyncAttemptsOnce(order, n);
    }
    assert forall a :: a in log ==> a.SyncTpdo?;
    FramesOneByOne(sent);
    if transport.socketOpen {
      SyncFrames(transport, order, sent);
    } else {
      assert FramesOf(sent) == [];
    }
  }

  predicate Wrote(writes: seq<Write>, f: Frame) {
    exists i :: 0 <= i < |writes| && writes[i].frame == f
  }

  /** The frame is what some TPDO of type 1 to 240 encodes to now. */
  ghost predicate AnswersSync(transport: SocketCanTransport, f: Frame)
    reads transport, transport.simulator
  {
    exists n :: n in transport.tpdoByNumber && 1 <= transport.tpdoByNumber[n].communication.transmissionType <= 240
                && transport.NextFrame(n) == Ok(f)
  }

  lemma SyncFrames(transport: SocketCanTransport, order: seq<u16>, sent: seq<Write>)
    requires transport.socketOpen && Enumerates(order, transport.SyncNumbers())
    requires FramesOf(sent) == transport.FramesFor(order)
    ensures forall f :: Wrote(sent, f) <==> AnswersSync(transport, f)
  {
    forall f
      ensures Wrote(sent, f) <==> AnswersSync(transport, f)
    {
      WroteFrames(sent, f);
      AnsweredFrames(transport, order, f);
    }
  }

  lemma WroteFrames(writes: seq<Write>, f: Frame)
    ensures Wrote(writes, f) <==> f in FramesOf(writes)
  {
    FramesOneByOne(writes);
    if f in FramesOf(writes) {
      var i :| 0 <= i < |FramesOf(writes)| && FramesOf(writes)[i] == f;
      assert writes[i].frame == f;
    }
    if Wrote(writes, f) {
      var i :| 0 <= i < |writes| && writes[i].frame == f;
      assert FramesOf(writes)[i] == f;
    }
  }

  lemma AnsweredFrames(transport: SocketCanTransport, order: seq<u16>, f: Frame)
    requires transport.socketOpen && Enumerates(order, transport.SyncNumbers())
    ensures f in transport.FramesFor(order) <==> AnswersSync(transport, f)
  {
    var tpdos, d, table := transport.tpdoByNumber, transport.simulator.dictionary, transport.simulator.pdoByKey;
    EmittedExactly(tpdos, d, table, order);
    if f in transport.FramesFor(order) {
      var n :| n in order && TpdoFrame(tpdos, d, table, n) == Ok(f);
      assert n in transport.SyncNumbers() && transport.NextFrame(n) == Ok(f);
    }
    if AnswersSync(transport, f) {
      var n :| n in tpdos && 1 <= tpdos[n].communication.transmissionType <= 240 && transport.NextFrame(n) == Ok(f);
      assert n in transport.SyncNumbers() && n in order;
    }
  }

  /** A keyword request that falls between the loop's load and its store is undone on the live object. */
  method InterruptedHeartbeat(transport: SocketCanTransport, requested: u8, now: Time)
    requires transport.NmtTracked() && transport.nmtLoaded.None?
    modifies transport`writes, transport`attempts, transport`nmtState, transport`nmtEvents, transport`nmtLoaded
    ensures transport.NmtTracked() && transport.nmtState == old(transport.nmtState)
    ensures transport.nmtEvents == old(transport.nmtEvents) + [Nmt.Load] + [Nmt.Explicit(requested)] + [Nmt.LoopStore]
  {
    var loaded := transport.LoadNmtState();
    var explicit := transport.SendHeartbeat(requested, KeywordHeartbeat);
    var looped := transport.SendHeartbeat(loaded, LoopHeartbeat(now));
  }

  /**
   Stopped and started again, the loop carries on with the deadlines where it left them: the attempts
   of both runs are those of one run over all the iterations.
   */
  method RunAgain(transport: SocketCanTransport, first: seq<Time>, second: seq<Time>) returns (r: Result<()>)
    requires transport.Valid() && transport.NmtTracked() && transport.nmtLoaded.None?
    modifies transport
    ensures transport.Valid() && transport.tpdoByNumber == old(transport.tpdoByNumber)
    ensures var times := if r.Ok? then first + second else first;
            && transport.HeartbeatFollows(old(transport.nextHeartbeatDue), old(transport.attempts), times)
            && transport.TimersFollow(old(transport.nextAsyncDue), old(transport.attempts), times)
  {
    ghost var due, dues, start := transport.nextHeartbeatDue, transport.nextAsyncDue, transport.attempts;
    ghost var log, sent := transport.TxLoop(first);
    transport.Stop();
    var _ :- transport.Start();
    transport.Resume(due, dues, start, first, second);
    return Ok(());
  }
}
