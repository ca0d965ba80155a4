/** What communication overrides do to the PDO list built afterwards, and what they leave alone. */
module OverrideBuild {
  import opened Types
  import opened Bits
  import opened Model
  import opened Walks
  import opened PdoBuilder
  import opened Config

  /** No override falls on a mapping record. */
  predicate MappingUntouched(config: SimulatorConfig) {
    forall direction: Direction, number: u16, sub: u8 :: 1 <= number <= RECORDS ==>
      Effective(config, ObjectKey(MapIndex(direction, number), sub)).None?
  }

  /** Overrides for the 512 PDOs of each direction stay clear of the mapping records. */
  lemma InRangeOverridesMissMapping(config: SimulatorConfig)
    requires forall n :: n in config.rpdo ==> 1 <= n <= RECORDS
    requires forall n :: n in config.tpdo ==> 1 <= n <= RECORDS
    ensures MappingUntouched(config)
  {
  }

  function Either<T>(o: Option<T>, other: Option<T>): Option<T> {
    if o.Some? then o else other
  }

  lemma ReadAfterOverrides(d: Dictionary, config: SimulatorConfig, e: Dictionary, index: u16, sub: u8)
    requires IsConfigured(d, config, e)
    ensures ReadU64(e, index, sub) == Either(Effective(config, ObjectKey(index, sub)), ReadU64(d, index, sub))
  {
    var k := ObjectKey(index, sub);
    assert Effective(config, k).Some? || Effective(config, k).None?;
  }

  /** Created entries have no name, so overrides never change what a signal is called. */
  lemma NamesKept(d: Dictionary, config: SimulatorConfig, e: Dictionary, k: ObjectKey)
    requires IsConfigured(d, config, e)
    ensures Named(e, k) == Named(d, k) && (Named(d, k) ==> e[k].name == d[k].name)
  {
    assert Effective(config, k).Some? || Effective(config, k).None?;
  }

  lemma {:induction false} SignalsKept(d: Dictionary, config: SimulatorConfig, e: Dictionary,
                                       direction: Direction, number: u16, n: u8)
    requires IsConfigured(d, config, e) && MappingUntouched(config) && 1 <= number <= RECORDS
    ensures Signals(e, MapIndex(direction, number), n) == Signals(d, MapIndex(direction, number), n)
    ensures SignalWarnings(e, MapIndex(direction, number), n) == SignalWarnings(d, MapIndex(direction, number), n)
  {
    if n > 0 {
      var index := MapIndex(direction, number);
      SignalsKept(d, config, e, direction, number, n - 1);
      assert Effective(config, ObjectKey(index, n)).None?;
      ReadAfterOverrides(d, config, e, index, n);
      if ReadU64(d, index, n).Some? {
        NamesKept(d, config, e, SignalKey(U32(ReadU64(d, index, n).value)));
      }
    }
  }

  lemma CountKept(d: Dictionary, config: SimulatorConfig, e: Dictionary, direction: Direction, number: u16)
    requires IsConfigured(d, config, e) && MappingUntouched(config) && 1 <= number <= RECORDS
    ensures SignalCount(e, direction, number) == SignalCount(d, direction, number)
  {
    assert Effective(config, ObjectKey(MapIndex(direction, number), 0)).None?;
    ReadAfterOverrides(d, config, e, MapIndex(direction, number), 0);
  }

  /** The builder still terminates after the overrides. */
  lemma TerminationKept(d: Dictionary, config: SimulatorConfig, e: Dictionary)
    requires IsConfigured(d, config, e) && MappingUntouched(config) && CountsTerminate(d)
    ensures CountsTerminate(e)
  {
    forall direction: Direction, number: u16 | 1 <= number <= RECORDS
      ensures SignalCount(e, direction, number) != Some(255)
    {
      CountKept(d, config, e, direction, number);
    }
  }

  /** A communication field: the override, truncated to the field's size, where one is set; the original otherwise. */
  function FieldAfter(config: SimulatorConfig, index: u16, sub: u8, original: nat, size: nat): (v: nat)
    requires size > 0 && original < size
    ensures v < size
  {
    match Effective(config, ObjectKey(index, sub))
    case Some(o) => o % size
    case None => original
  }

  function CommunicationAfter(config: SimulatorConfig, index: u16, c: Communication): Communication {
    Communication(
      FieldAfter(config, index, 1, c.cobId, 0x1_0000_0000),
      FieldAfter(config, index, 2, c.transmissionType, 0x100),
      FieldAfter(config, index, 3, c.inhibitTime, 0x1_0000),
      FieldAfter(config, index, 5, c.eventTimer, 0x1_0000))
  }

  function PdoAfter(config: SimulatorConfig, p: Pdo): Pdo
    requires 1 <= p.number <= RECORDS
  {
    p.(communication := CommunicationAfter(config, CommIndex(p.direction, p.number), p.communication))
  }

  /** A warning remains unless it is for a missing COB-ID that an override supplies. */
  function Remaining(config: SimulatorConfig): Warning -> seq<Warning> {
    (w: Warning) => if w.MissingCobId? && Effective(config, ObjectKey(w.index, 1)).Some? then [] else [w]
  }

  function WarningsAfter(config: SimulatorConfig, warnings: seq<Warning>): seq<Warning> {
    FlatMap(Remaining(config), warnings)
  }

  lemma WarningsAfterAppend(config: SimulatorConfig, a: seq<Warning>, b: seq<Warning>)
    ensures WarningsAfter(config, a + b) == WarningsAfter(config, a) + WarningsAfter(config, b)
  {
    FlatMapAppend(Remaining(config), a, b);
  }

  predicate NoCobIdMissing(warnings: seq<Warning>) {
    forall w <- warnings :: !w.MissingCobId?
  }

  lemma {:induction false} OtherWarningsStay(config: SimulatorConfig, warnings: seq<Warning>)
    requires NoCobIdMissing(warnings)
    ensures WarningsAfter(config, warnings) == warnings
  {
    if warnings != [] {
      var front, last := warnings[..|warnings| - 1], warnings[|warnings| - 1];
      OtherWarningsStay(config, front);
      assert warnings == front + [last];
      WarningsAfterAppend(config, front, [last]);
      FlatMapOne(Remaining(config), last);
    }
  }

  lemma {:induction false} SignalsMissNoCobId(d: Dictionary, index: u16, n: u8)
    ensures NoCobIdMissing(SignalWarnings(d, index, n))
  {
    if n > 0 {
      SignalsMissNoCobId(d, index, n - 1);
      assert NoCobIdMissing(MappingWarnings(d, index, n));
    }
  }

  lemma CommunicationKept(d: Dictionary, config: SimulatorConfig, e: Dictionary, index: u16)
    requires IsConfigured(d, config, e)
    ensures CommunicationAt(e, index) == CommunicationAfter(config, index, CommunicationAt(d, index))
    ensures CobIdWarnings(e, index) == WarningsAfter(config, CobIdWarnings(d, index))
  {
    ReadAfterOverrides(d, config, e, index, 1);
    ReadAfterOverrides(d, config, e, index, 2);
    ReadAfterOverrides(d, config, e, index, 3);
    ReadAfterOverrides(d, config, e, index, 5);
    FlatMapOne(Remaining(config), MissingCobId(index));
  }

  lemma RecordAfter(d: Dictionary, config: SimulatorConfig, e: Dictionary, direction: Direction, number: u16)
    requires IsConfigured(d, config, e) && MappingUntouched(config) && 1 <= number <= RECORDS
    ensures |PdosFor(e, direction, number)| == |PdosFor(d, direction, number)|
    ensures PdosFor(d, direction, number) != [] ==>
              PdosFor(e, direction, number) == [PdoAfter(config, PdosFor(d, direction, number)[0])]
    ensures WarningsFor(e, direction, number) == WarningsAfter(config, WarningsFor(d, direction, number))
  {
    CountKept(d, config, e, direction, number);
    var count := SignalCount(d, direction, number);
    if count.Some? {
      SignalsKept(d, config, e, direction, number, count.value);
      CommunicationKept(d, config, e, CommIndex(direction, number));
      SignalsMissNoCobId(d, MapIndex(direction, number), count.value);
      OtherWarningsStay(config, SignalWarnings(d, MapIndex(direction, number), count.value));
      WarningsAfterAppend(config, CobIdWarnings(d, CommIndex(direction, number)),
                          SignalWarnings(d, MapIndex(direction, number), count.value));
    }
  }

  /** The list e is the list d with every communication adjusted and nothing else. */
  ghost predicate AdjustedList(config: SimulatorConfig, before: seq<Pdo>, after: seq<Pdo>) {
    && |after| == |before|
    && forall i :: 0 <= i < |before| ==> 1 <= before[i].number <= RECORDS && after[i] == PdoAfter(config, before[i])
  }

  lemma AdjustedAppend(config: SimulatorConfig, a: seq<Pdo>, a': seq<Pdo>, b: seq<Pdo>, b': seq<Pdo>)
    requires AdjustedList(config, a, a') && AdjustedList(config, b, b')
    ensures AdjustedList(config, a + b, a' + b')
  {
  }

  lemma {:induction false} RangeAfter(d: Dictionary, config: SimulatorConfig, e: Dictionary,
                                      direction: Direction, n: nat)
    requires IsConfigured(d, config, e) && MappingUntouched(config) && n <= RECORDS
    ensures AdjustedList(config, RangePdos(d, direction, n), RangePdos(e, direction, n))
  {
    if n > 0 {
      var p, p' := PdosFor(d, direction, n), PdosFor(e, direction, n);
      RangeAfter(d, config, e, direction, n - 1);
      assert AdjustedList(config, p, p') by {
        RecordAfter(d, config, e, direction, n);
      }
      AdjustedAppend(config, RangePdos(d, direction, n - 1), RangePdos(e, direction, n - 1), p, p');
    }
  }

  lemma {:induction false} RangeWarningsAfter(d: Dictionary, config: SimulatorConfig, e: Dictionary,
                                              direction: Direction, n: nat)
    requires IsConfigured(d, config, e) && MappingUntouched(config) && n <= RECORDS
    ensures RangeWarnings(e, direction, n) == WarningsAfter(config, RangeWarnings(d, direction, n))
  {
    if n > 0 {
      var w, w' := WarningsFor(d, direction, n), WarningsFor(e, direction, n);
      RangeWarningsAfter(d, config, e, direction, n - 1);
      assert w' == WarningsAfter(config, w) by {
        RecordAfter(d, config, e, direction, n);
      }
      FlatMapAppend(Remaining(config), RangeWarnings(d, direction, n - 1), w);
    }
  }

  /**
   Building after the overrides gives the same PDOs in the same order with the same signals; each
   communication field is the override where set and the original otherwise; only missing-COB-ID
   warnings go away, those an override supplies.
   */
  lemma OverrideThenBuild(d: Dictionary, config: SimulatorConfig, e: Dictionary)
    requires IsConfigured(d, config, e) && MappingUntouched(config)
    ensures AdjustedList(config, BuiltPdos(d), BuiltPdos(e))
    ensures BuiltWarnings(e) == WarningsAfter(config, BuiltWarnings(d))
  {
    RangeAfter(d, config, e, Receive, RECORDS);
    RangeAfter(d, config, e, Transmit, RECORDS);
    RangeWarningsAfter(d, config, e, Receive, RECORDS);
    RangeWarningsAfter(d, config, e, Transmit, RECORDS);
    AdjustedAppend(config, RangePdos(d, Receive, RECORDS), RangePdos(e, Receive, RECORDS),
                   RangePdos(d, Transmit, RECORDS), RangePdos(e, Transmit, RECORDS));
    FlatMapAppend(Remaining(config), RangeWarnings(d, Receive, RECORDS), RangeWarnings(d, Transmit, RECORDS));
  }

  /** For numbers 1 to 512 the override of a PDO is the one listed under its own number and direction. */
  lemma InRangeEffective(config: SimulatorConfig, direction: Direction, number: u16, sub: u8)
    requires forall n :: n in config.rpdo ==> 1 <= n <= RECORDS
    requires forall n :: n in config.tpdo ==> 1 <= n <= RECORDS
    requires 1 <= number <= RECORDS
    ensures var overrides := if direction.Receive? then config.rpdo else config.tpdo;
            Effective(config, ObjectKey(CommIndex(direction, number), sub))
            == if number in overrides then OverrideField(overrides[number], sub) else None
  {
  }

  // ----- The condition is exact -----

  /** Every dictionary keeps its signals through the overrides. */
  ghost predicate AlwaysKeepsSignals(config: SimulatorConfig) {
    forall d, e, direction: Direction, number: u16 :: IsConfigured(d, config, e) && 1 <= number <= RECORDS ==>
      SameSignals(d, e, direction, number)
  }

  predicate SameSignals(d: Dictionary, e: Dictionary, direction: Direction, number: u16)
    requires 1 <= number <= RECORDS
  {
    && SignalCount(e, direction, number) == SignalCount(d, direction, number)
    && (SignalCount(d, direction, number).Some? ==>
          Signals(e, MapIndex(direction, number), SignalCount(d, direction, number).value)
          == Signals(d, MapIndex(direction, number), SignalCount(d, direction, number).value))
  }

  /** An override on a mapping record turns a record with missing words into one with a signal. */
  lemma HitChangesSignals(config: SimulatorConfig, direction: Direction, number: u16, sub: u8,
                          d: Dictionary, e: Dictionary)
    requires 1 <= number <= RECORDS && 1 <= sub <= 5
    requires Effective(config, ObjectKey(MapIndex(direction, number), sub)).Some?
    requires Effective(config, ObjectKey(MapIndex(direction, number), 0)).None?
    requires var k := ObjectKey(MapIndex(direction, number), 0);
             d == map[k := DEFAULT_ENTRY.(key := k, value := Unsigned(5))]
    requires IsConfigured(d, config, e)
    ensures !SameSignals(d, e, direction, number)
  {
    var index := MapIndex(direction, number);
    assert SignalCount(d, direction, number) == Some(5);
    ReadAfterOverrides(d, config, e, index, sub);
    PresentSubsIncrease(d, index, 5);
    PresentSubsIncrease(e, index, 5);
    SameLength(d, index, 5);
    SameLength(e, index, 5);
    assert sub in PresentSubs(e, index, 5);
    HeadIsMember(PresentSubs(d, index, 5));
  }

  lemma SubZeroNeverOverridden(config: SimulatorConfig, index: u16, sub: u8)
    ensures Effective(config, ObjectKey(index, sub)).Some? ==> 1 <= sub <= 5
  {
  }

  /** Overrides keep every dictionary's signals exactly when none of them falls on a mapping record. */
  lemma KeepsSignalsIff(config: SimulatorConfig)
    ensures AlwaysKeepsSignals(config) <==> MappingUntouched(config)
  {
    if MappingUntouched(config) {
      forall d, e, direction: Direction, number: u16 | IsConfigured(d, config, e) && 1 <= number <= RECORDS
        ensures SameSignals(d, e, direction, number)
      {
        CountKept(d, config, e, direction, number);
        if SignalCount(d, direction, number).Some? {
          SignalsKept(d, config, e, direction, number, SignalCount(d, direction, number).value);
        }
      }
    } else {
      var direction: Direction, number: u16, sub: u8 :|
        1 <= number <= RECORDS && Effective(config, ObjectKey(MapIndex(direction, number), sub)).Some?;
      var index := MapIndex(direction, number);
      SubZeroNeverOverridden(config, index, sub);
      SubZeroNeverOverridden(config, index, 0);
      var k := ObjectKey(index, 0);
      var d: Dictionary := map[k := DEFAULT_ENTRY.(key := k, value := Unsigned(5))];
      HitChangesSignals(config, direction, number, sub, d, Configured(d, config));
    }
  }

  /** RPDO override 513 rewrites the first mapping word of RPDO 1, and with it the signals of some dictionary. */
  lemma Override513HitsMapping(o: PdoOverride, d: Dictionary, e: Dictionary)
    requires o.cobId.Some?
    requires IsConfigured(d, SimulatorConfig(map[], map[513 := o], map[]), e)
    ensures var k := ObjectKey(0x1600, 1); k in e && e[k].value == Unsigned(o.cobId.value)
    ensures var config := SimulatorConfig(map[], map[513 := o], map[]);
            exists before: Dictionary :: !SameSignals(before, Configured(before, config), Receive, 1)
  {
    var config := SimulatorConfig(map[], map[513 := o], map[]);
    var k := ObjectKey(0x1600, 0);
    assert MapIndex(Receive, 1) == 0x1600;
    assert Effective(config, ObjectKey(0x1600, 1)) == Some(o.cobId.value);
    var before: Dictionary := map[k := DEFAULT_ENTRY.(key := k, value := Unsigned(5))];
    HitChangesSignals(config, Receive, 1, 1, before, Configured(before, config));
  }
}
