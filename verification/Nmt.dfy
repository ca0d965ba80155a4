/**
 The shared NMT state byte. The transmit thread loads it and later stores the loaded value back
 while it sends a heartbeat; keyword calls store to it at any moment in between.
 */
module Nmt {
  import opened Types

  const PRE_OPERATIONAL: u8 := 127

  function NmtCommandToState(command: u8): u8 {
    if command == 1 then 5
    else if command == 2 then 4
    else if command == 128 then 127
    else 0
  }

  /**
   The atomic accesses: the loop's load, the loop's store of what it loaded (inside SendHeartbeat),
   and the store of an explicit SendHeartbeat or of a successful SendNmtCommand that concerns this node.
   */
  datatype Event = Load | LoopStore | Explicit(state: u8)

  /** The state byte, and what the transmit thread holds between its load and its store. */
  datatype Nmt = Nmt(state: u8, loaded: Option<u8>)

  predicate Enabled(s: Nmt, e: Event) {
    match e
    case Load => s.loaded.None?
    case LoopStore => s.loaded.Some?
    case Explicit(_) => true
  }

  function Step(s: Nmt, e: Event): Nmt
    requires Enabled(s, e)
  {
    match e
    case Load => s.(loaded := Some(s.state))
    case LoopStore => Nmt(s.loaded.value, None)
    case Explicit(v) => s.(state := v)
  }

  predicate Legal(s: Nmt, events: seq<Event>)
    decreases |events|
  {
    events != [] ==> Enabled(s, events[0]) && Legal(Step(s, events[0]), events[1..])
  }

  function Run(s: Nmt, events: seq<Event>): Nmt
    requires Legal(s, events)
    decreases |events|
  {
    if events == [] then s else Run(Step(s, events[0]), events[1..])
  }

  /** The state bytes of the loop's heartbeat frames, in order. */
  function LoopHeartbeats(s: Nmt, events: seq<Event>): seq<u8>
    requires Legal(s, events)
    decreases |events|
  {
    if events == [] then []
    else
      (if events[0].LoopStore? then [s.loaded.value] else [])
      + LoopHeartbeats(Step(s, events[0]), events[1..])
  }

  const INITIAL := Nmt(PRE_OPERATIONAL, None)

  /** The values a run may show: the initial one, the one already loaded, and those stored explicitly. */
  predicate Sourced(s: Nmt, events: seq<Event>, v: u8) {
    v == s.state || s.loaded == Some(v) || Explicit(v) in events
  }

  /** No value is invented: the state and every loop heartbeat carry a value that came from somewhere. */
  lemma {:induction false} NothingInvented(s: Nmt, events: seq<Event>)
    requires Legal(s, events)
    ensures Sourced(s, events, Run(s, events).state)
    ensures forall v :: v in LoopHeartbeats(s, events) ==> Sourced(s, events, v)
    decreases |events|
  {
    if events != [] {
      var next := Step(s, events[0]);
      NothingInvented(next, events[1..]);
      forall v | Sourced(next, events[1..], v)
        ensures Sourced(s, events, v)
      {
      }
    }
  }

  lemma InitialRunNothingInvented(events: seq<Event>)
    requires Legal(INITIAL, events)
    ensures var v := Run(INITIAL, events).state; v == 127 || Explicit(v) in events
    ensures forall v :: v in LoopHeartbeats(INITIAL, events) ==> v == 127 || Explicit(v) in events
  {
    NothingInvented(INITIAL, events);
  }

  predicate NoExplicit(events: seq<Event>) {
    forall e :: e in events ==> !e.Explicit?
  }

  /** After the last explicit store of v, with nothing or v itself pending, v stays. */
  lemma {:induction false} Settled(s: Nmt, events: seq<Event>)
    requires Legal(s, events) && NoExplicit(events)
    requires s.loaded.None? || s.loaded == Some(s.state)
    ensures Run(s, events).state == s.state
    ensures forall v :: v in LoopHeartbeats(s, events) ==> v == s.state
    decreases |events|
  {
    if events != [] {
      Settled(Step(s, events[0]), events[1..]);
    }
  }

  /** With an older value pending, the loop's next store brings that value back. */
  lemma {:induction false} StaleStoreWins(s: Nmt, events: seq<Event>)
    requires Legal(s, events) && NoExplicit(events) && s.loaded.Some?
    ensures Run(s, events).state == if LoopStore in events then s.loaded.value else s.state
  {
    if events != [] {
      assert events[0] == LoopStore;
      Settled(Step(s, events[0]), events[1..]);
    }
  }

  lemma {:induction false} LegalSplit(s: Nmt, before: seq<Event>, after: seq<Event>)
    requires Legal(s, before + after)
    ensures Legal(s, before) && Legal(Run(s, before), after)
    ensures Run(s, before + after) == Run(Run(s, before), after)
    decreases |before|
  {
    if before == [] {
      assert before + after == after;
    } else {
      assert (before + after)[1..] == before[1..] + after;
      LegalSplit(Step(s, before[0]), before[1..], after);
    }
  }

  /** One more enabled event extends a run by one step. */
  lemma {:induction false} RunNext(s: Nmt, events: seq<Event>, e: Event)
    requires Legal(s, events) && Enabled(Run(s, events), e)
    ensures Legal(s, events + [e])
    ensures Run(s, events + [e]) == Step(Run(s, events), e)
    decreases |events|
  {
    if events == [] {
      assert [] + [e] == [e] && [e][1..] == [];
    } else {
      RunNext(Step(s, events[0]), events[1..], e);
      assert (events + [e])[1..] == events[1..] + [e];
    }
  }

  /**
   The last explicit store survives exactly when the transmit thread held no older, different value
   across it that it has stored since.
   */
  lemma LastStoreSurvivesIff(before: seq<Event>, v: u8, after: seq<Event>)
    requires Legal(INITIAL, before + ([Explicit(v)] + after)) && NoExplicit(after)
    ensures Legal(INITIAL, before)
    ensures var pending := Run(INITIAL, before).loaded;
            Run(INITIAL, before + ([Explicit(v)] + after)).state == v
            <==> pending.None? || pending == Some(v) || LoopStore !in after
  {
    LegalSplit(INITIAL, before, [Explicit(v)] + after);
    var s := Run(INITIAL, before);
    var stored := Step(s, Explicit(v));
    assert ([Explicit(v)] + after)[1..] == after;
    if s.loaded.None? {
      Settled(stored, after);
    } else {
      StaleStoreWins(stored, after);
    }
  }

  /** Runs in which no explicit store falls between the loop's load and its store. */
  predicate Undisturbed(s: Nmt, events: seq<Event>)
    requires Legal(s, events)
    decreases |events|
  {
    events != [] ==>
      (events[0].Explicit? ==> s.loaded.None?) && Undisturbed(Step(s, events[0]), events[1..])
  }

  function LastExplicit(initial: u8, events: seq<Event>): u8
    decreases |events|
  {
    if events == [] then initial
    else LastExplicit(if events[0].Explicit? then events[0].state else initial, events[1..])
  }

  /** The last explicit value at the moment of each loop heartbeat. */
  function ExpectedHeartbeats(initial: u8, events: seq<Event>): seq<u8>
    decreases |events|
  {
    if events == [] then []
    else
      (if events[0].LoopStore? then [initial] else [])
      + ExpectedHeartbeats(if events[0].Explicit? then events[0].state else initial, events[1..])
  }

  /** In undisturbed runs the state is the last explicit store and every loop heartbeat carries it. */
  lemma {:induction false} UndisturbedTracksLastStore(s: Nmt, events: seq<Event>)
    requires Legal(s, events) && Undisturbed(s, events)
    requires s.loaded.None? || s.loaded == Some(s.state)
    ensures Run(s, events).state == LastExplicit(s.state, events)
    ensures LoopHeartbeats(s, events) == ExpectedHeartbeats(s.state, events)
    decreases |events|
  {
    if events != [] {
      UndisturbedTracksLastStore(Step(s, events[0]), events[1..]);
    }
  }

  /** A heartbeat in flight undoes an explicit request: operational is asked for, pre-operational remains. */
  lemma StoreCanBeLost()
    ensures var events := [Load, Explicit(5), LoopStore];
            Legal(INITIAL, events) && Run(INITIAL, events).state == 127 && LastExplicit(127, events) == 5
  {
    var events := [Load, Explicit(5), LoopStore];
    assert events[1..] == [Explicit(5), LoopStore];
    assert events[1..][1..] == [LoopStore];
    assert events[1..][1..][1..] == [];
  }
}
