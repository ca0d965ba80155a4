/** Configuration applied to a parsed dictionary: default values by key, then PDO communication overrides. */
module Config {
  import opened Types
  import opened Bits
  import opened Model
  import opened ValueText
  import opened Walks

  datatype PdoOverride = PdoOverride(
    cobId: Option<u32>, transmissionType: Option<u8>, inhibitTime: Option<u16>, eventTimer: Option<u16>)

  type Overrides = map<u16, PdoOverride>

  datatype SimulatorConfig = SimulatorConfig(odDefaults: map<string, string>, rpdo: Overrides, tpdo: Overrides)

  // ----- Communication overrides -----

  /** The record a PDO number addresses, in 16-bit arithmetic. */
  function RecordOf(base: u16, number: u16): u16
    requires base > 0
  {
    U16(base + number - 1)
  }

  /** The PDO number that addresses a record. */
  function NumberOf(base: u16, index: u16): u16 {
    U16(index + 0x1_0000 - base + 1)
  }

  /** Every number addresses its own record, wraparound included. */
  lemma RecordInverse(base: u16, number: u16, index: u16)
    requires base > 0
    ensures RecordOf(base, number) == index <==> number == NumberOf(base, index)
  {
  }

  function OverrideField(o: PdoOverride, subIndex: u8): Option<u64> {
    if subIndex == 1 && o.cobId.Some? then Some(o.cobId.value)
    else if subIndex == 2 && o.transmissionType.Some? then Some(o.transmissionType.value)
    else if subIndex == 3 && o.inhibitTime.Some? then Some(o.inhibitTime.value)
    else if subIndex == 5 && o.eventTimer.Some? then Some(o.eventTimer.value)
    else None
  }

  /** What a section of overrides stores at a key. */
  function FieldAt(base: u16, overrides: Overrides, k: ObjectKey): Option<u64> {
    var n := NumberOf(base, k.index);
    if n in overrides then OverrideField(overrides[n], k.subIndex) else None
  }

  /** The entry left by storing an override: created if missing, its key rewritten, its type kept. */
  function Overridden(d: Dictionary, k: ObjectKey, v: u64): OdEntry {
    (if k in d then d[k] else DEFAULT_ENTRY).(key := k, value := Unsigned(v))
  }

  /** The dictionary e is d with a section of overrides stored, key by key. */
  ghost predicate IsOverridden(d: Dictionary, base: u16, overrides: Overrides, e: Dictionary) {
    forall k :: match FieldAt(base, overrides, k)
                case Some(v) => k in e && e[k] == Overridden(d, k, v)
                case None => (k in e <==> k in d) && (k in d ==> e[k] == d[k])
  }

  /** The result is determined key by key, so no order of storing can change it. */
  lemma OverriddenUnique(d: Dictionary, base: u16, overrides: Overrides, e: Dictionary, f: Dictionary)
    requires IsOverridden(d, base, overrides, e) && IsOverridden(d, base, overrides, f)
    ensures e == f
  {
    forall k
      ensures k in e <==> k in f
      ensures k in e && k in f ==> e[k] == f[k]
    {
      assert FieldAt(base, overrides, k).Some? || FieldAt(base, overrides, k).None?;
    }
  }

  /** The dictionary with one field of a record stored, when it is set. */
  function StoreField(d: Dictionary, index: u16, subIndex: u8, v: Option<u64>): Dictionary {
    var k := ObjectKey(index, subIndex);
    if v.Some? then d[k := Overridden(d, k, v.value)] else d
  }

  method SetField(d: Dictionary, index: u16, subIndex: u8, v: u64) returns (e: Dictionary)
    ensures e == StoreField(d, index, subIndex, Some(v))
  {
    var k := ObjectKey(index, subIndex);
    e := if k in d then d else d[k := DEFAULT_ENTRY];
    e := e[k := e[k].(key := k)];
    e := e[k := e[k].(value := Unsigned(v))];
  }

  method ApplyOne(base: u16, number: u16, o: PdoOverride, d: Dictionary) returns (e: Dictionary)
    requires base > 0
    ensures IsOverridden(d, base, map[number := o], e)
  {
    var index := RecordOf(base, number);
    e := d;
    if o.cobId.Some? {
      e := SetField(e, index, 1, o.cobId.value);
    }
    ghost var e1 := e;
    if o.transmissionType.Some? {
      e := SetField(e, index, 2, o.transmissionType.value);
    }
    ghost var e2 := e;
    if o.inhibitTime.Some? {
      e := SetField(e, index, 3, o.inhibitTime.value);
    }
    ghost var e3 := e;
    if o.eventTimer.Some? {
      e := SetField(e, index, 5, o.eventTimer.value);
    }
    RecordStored(base, number, o, d, e1, e2, e3, e);
  }

  /** Four fields stored one after the other. */
  lemma RecordStored(base: u16, number: u16, o: PdoOverride,
                     d: Dictionary, e1: Dictionary, e2: Dictionary, e3: Dictionary, e: Dictionary)
    requires base > 0
    requires var index := RecordOf(base, number);
             && e1 == StoreField(d, index, 1, OverrideField(o, 1))
             && e2 == StoreField(e1, index, 2, OverrideField(o, 2))
             && e3 == StoreField(e2, index, 3, OverrideField(o, 3))
             && e == StoreField(e3, index, 5, OverrideField(o, 5))
    ensures IsOverridden(d, base, map[number := o], e)
  {
    forall k
      ensures match FieldAt(base, map[number := o], k)
              case Some(v) => k in e && e[k] == Overridden(d, k, v)
              case None => (k in e <==> k in d) && (k in d ==> e[k] == d[k])
    {
      var index := RecordOf(base, number);
      RecordInverse(base, number, k.index);
      StoredAt(d, index, 1, OverrideField(o, 1), k);
      StoredAt(e1, index, 2, OverrideField(o, 2), k);
      StoredAt(e2, index, 3, OverrideField(o, 3), k);
      StoredAt(e3, index, 5, OverrideField(o, 5), k);
    }
  }

  /** What storing a field leaves at a key. */
  lemma StoredAt(d: Dictionary, index: u16, subIndex: u8, v: Option<u64>, k: ObjectKey)
    ensures var e := StoreField(d, index, subIndex, v);
            if k == ObjectKey(index, subIndex) && v.Some? then k in e && e[k] == Overridden(d, k, v.value)
            else (k in e <==> k in d) && (k in d ==> e[k] == d[k])
  {
  }

  lemma OverridesCompose(d: Dictionary, base: u16, done: Overrides, e: Dictionary,
                         number: u16, o: PdoOverride, f: Dictionary)
    requires IsOverridden(d, base, done, e) && IsOverridden(e, base, map[number := o], f) && number !in done
    ensures IsOverridden(d, base, done[number := o], f)
  {
    forall k
      ensures match FieldAt(base, done[number := o], k)
              case Some(v) => k in f && f[k] == Overridden(d, k, v)
              case None => (k in f <==> k in d) && (k in d ==> f[k] == d[k])
    {
      assert FieldAt(base, done, k).Some? || FieldAt(base, done, k).None?;
      assert FieldAt(base, map[number := o], k).Some? || FieldAt(base, map[number := o], k).None?;
    }
  }

  /** Stores a section of overrides in the order the hash map yields them. */
  method ApplySinglePdoOverride(base: u16, overrides: Overrides, d: Dictionary) returns (e: Dictionary)
    requires base > 0
    ensures IsOverridden(d, base, overrides, e)
  {
    e := d;
    var remaining := overrides.Keys;
    while remaining != {}
      invariant remaining <= overrides.Keys
      invariant IsOverridden(d, base, overrides - remaining, e)
      decreases |remaining|
    {
      var number :| number in remaining;
      ghost var done, before := overrides - remaining, e;
      e := ApplyOne(base, number, overrides[number], e);
      OverridesCompose(d, base, done, before, number, overrides[number], e);
      remaining := remaining - {number};
      assert overrides - remaining == done[number := overrides[number]];
    }
    assert overrides - {} == overrides;
  }

  /** What the two sections together store at a key: the TPDO pass runs second and wins. */
  function Effective(config: SimulatorConfig, k: ObjectKey): Option<u64> {
    match FieldAt(0x1800, config.tpdo, k)
    case Some(v) => Some(v)
    case None => FieldAt(0x1400, config.rpdo, k)
  }

  /** The dictionary e is d with both sections stored. */
  ghost predicate IsConfigured(d: Dictionary, config: SimulatorConfig, e: Dictionary) {
    forall k :: match Effective(config, k)
                case Some(v) => k in e && e[k] == Overridden(d, k, v)
                case None => (k in e <==> k in d) && (k in d ==> e[k] == d[k])
  }

  /** The dictionary with both sections stored, as one map. */
  ghost function Configured(d: Dictionary, config: SimulatorConfig): (e: Dictionary)
    ensures IsConfigured(d, config, e)
  {
    var touched :=
      set n: u16, s: u8 {:trigger ObjectKey(n, s)} | Effective(config, ObjectKey(n, s)).Some? :: ObjectKey(n, s);
    map k | k in d.Keys + touched ::
      if Effective(config, k).Some? then Overridden(d, k, Effective(config, k).value) else d[k]
  }

  lemma ConfiguredUnique(d: Dictionary, config: SimulatorConfig, e: Dictionary, f: Dictionary)
    requires IsConfigured(d, config, e) && IsConfigured(d, config, f)
    ensures e == f
  {
    forall k
      ensures k in e <==> k in f
      ensures k in e && k in f ==> e[k] == f[k]
    {
      assert Effective(config, k).Some? || Effective(config, k).None?;
    }
  }

  lemma SectionsCompose(d: Dictionary, config: SimulatorConfig, m: Dictionary, e: Dictionary)
    requires IsOverridden(d, 0x1400, config.rpdo, m) && IsOverridden(m, 0x1800, config.tpdo, e)
    ensures IsConfigured(d, config, e)
  {
    forall k
      ensures match Effective(config, k)
              case Some(v) => k in e && e[k] == Overridden(d, k, v)
              case None => (k in e <==> k in d) && (k in d ==> e[k] == d[k])
    {
      assert FieldAt(0x1400, config.rpdo, k).Some? || FieldAt(0x1400, config.rpdo, k).None?;
      assert FieldAt(0x1800, config.tpdo, k).Some? || FieldAt(0x1800, config.tpdo, k).None?;
    }
  }

  /** Overrides keep keys right, and keep types right exactly when they hit unsigned or unknown-typed entries. */
  lemma OverridesKeepTypingIff(d: Dictionary, config: SimulatorConfig, e: Dictionary)
    requires KeysAgree(d) && WellTyped(d) && IsConfigured(d, config, e)
    ensures KeysAgree(e)
    ensures WellTyped(e) <==>
            forall k :: k in d && Effective(config, k).Some? ==>
              IsUnsignedType(d[k].dataType) || d[k].dataType.UnknownType?
  {
    forall k | k in e
      ensures e[k].key == k
      ensures Compatible(e[k].dataType, e[k].value) <==>
              (k in d && Effective(config, k).Some? ==> IsUnsignedType(d[k].dataType) || d[k].dataType.UnknownType?)
    {
      assert Effective(config, k).Some? || Effective(config, k).None?;
    }
    forall k | k in d && Effective(config, k).Some?
      ensures k in e
    {
    }
  }

  /** A COB-ID override stored over a signed entry leaves that entry ill-typed. */
  lemma OverrideBreaksTyping(o: PdoOverride)
    requires o.cobId.Some?
    ensures var k := ObjectKey(0x1800, 1);
            var d := map[k := OdEntry(k, "", Integer32, ReadWrite, Signed(0))];
            KeysAgree(d) && WellTyped(d) && !WellTyped(Configured(d, SimulatorConfig(map[], map[], map[1 := o])))
  {
    var k := ObjectKey(0x1800, 1);
    var d := map[k := OdEntry(k, "", Integer32, ReadWrite, Signed(0))];
    var config := SimulatorConfig(map[], map[], map[1 := o]);
    assert Effective(config, k) == Some(o.cobId.value);
    assert Configured(d, config)[k] == Overridden(d, k, o.cobId.value);
  }

  // ----- Default values -----

  /** What one default entry does: the key it names and the value it stores there, or why it is refused. */
  function DefaultFor(d: Dictionary, keyText: string, valueText: string, reals: RealText): Result<(ObjectKey, Value)> {
    match ParseCanonicalKey(keyText)
    case None => Err(InvalidDefaultKey)
    case Some(k) =>
      if k !in d then Err(DefaultKeyUnknown)
      else
        match ParseValue(valueText, d[k].dataType, reals)
        case None => Err(InvalidText)
        case Some(v) => Ok((k, v))
  }

  /** A default for a key in canonical form, with the printed form of a value of the entry's type, is that value. */
  lemma PrintedDefaultTaken(d: Dictionary, k: ObjectKey, v: Value, reals: RealText)
    requires k in d && Compatible(d[k].dataType, v) && !v.Empty? && !v.Real? && (d[k].dataType.UnknownType? ==> v.Text?)
    ensures DefaultFor(d, CanonicalKey(k), FormatValue(v, reals), reals) == Ok((k, v))
  {
    CanonicalKeyRoundTrip(k);
    FormatRoundTrip(v, d[k].dataType, reals);
  }

  /** The dictionary after the defaults of the given texts, in that order, up to the first refused one. */
  function AfterDefaults(d: Dictionary, defaults: map<string, string>, order: seq<string>, reals: RealText)
    : (r: (Dictionary, Option<Error>))
    requires forall t :: t in order ==> t in defaults
    ensures r.0.Keys == d.Keys
    ensures forall k :: k in d ==> r.0[k] == d[k].(value := r.0[k].value)
  {
    if order == [] then (d, None)
    else
      var text := order[|order| - 1];
      var (before, error) := AfterDefaults(d, defaults, order[..|order| - 1], reals);
      if error.Some? then (before, error)
      else
        match DefaultFor(before, text, defaults[text], reals)
        case Err(e) => (before, Some(e))
        case Ok((k, v)) => (Store(before, k, v), None)
  }

  /** Every default names an existing entry and parses for its type. */
  predicate AllValid(d: Dictionary, defaults: map<string, string>, reals: RealText) {
    forall t :: t in defaults ==> DefaultFor(d, t, defaults[t], reals).Ok?
  }

  /** What a default does depends on keys and types only, which earlier defaults leave alone. */
  lemma DefaultForByShape(d: Dictionary, before: Dictionary, keyText: string, valueText: string, reals: RealText)
    requires before.Keys == d.Keys && forall k :: k in d ==> before[k] == d[k].(value := before[k].value)
    ensures DefaultFor(before, keyText, valueText, reals) == DefaultFor(d, keyText, valueText, reals)
  {
    var key := ParseCanonicalKey(keyText);
    if key.Some? && key.value in d {
      assert before[key.value] == d[key.value].(value := before[key.value].value);
    }
  }

  /** One more default at the end: whether it is taken depends on the original dictionary. */
  lemma AfterDefaultsNext(d: Dictionary, defaults: map<string, string>, order: seq<string>, reals: RealText)
    returns (before: (Dictionary, Option<Error>), taken: Result<(ObjectKey, Value)>)
    requires order != [] && forall t :: t in order ==> t in defaults
    ensures before == AfterDefaults(d, defaults, order[..|order| - 1], reals)
    ensures taken == DefaultFor(d, order[|order| - 1], defaults[order[|order| - 1]], reals)
    ensures taken.Ok? ==> taken.value.0 in before.0
    ensures AfterDefaults(d, defaults, order, reals)
         == if before.1.Some? then before
            else if taken.Err? then (before.0, Some(taken.error))
            else (Store(before.0, taken.value.0, taken.value.1), None)
  {
    var text := order[|order| - 1];
    before := AfterDefaults(d, defaults, order[..|order| - 1], reals);
    DefaultForByShape(d, before.0, text, defaults[text], reals);
    taken := DefaultFor(d, text, defaults[text], reals);
  }

  /** No default is refused exactly when each of them is acceptable to the original dictionary. */
  lemma {:induction false} DefaultsSucceedIff(d: Dictionary, defaults: map<string, string>, order: seq<string>,
                                              reals: RealText)
    requires forall t :: t in order ==> t in defaults
    ensures AfterDefaults(d, defaults, order, reals).1 == None <==>
            forall t :: t in order ==> DefaultFor(d, t, defaults[t], reals).Ok?
  {
    if order != [] {
      var before, taken := AfterDefaultsNext(d, defaults, order, reals);
      DefaultsSucceedIff(d, defaults, order[..|order| - 1], reals);
      assert order == order[..|order| - 1] + [order[|order| - 1]];
    }
  }

  /** The reason a run of defaults stops is that of one of its texts, taken by itself. */
  lemma {:induction false} RefusedByOne(d: Dictionary, defaults: map<string, string>, order: seq<string>,
                                        reals: RealText)
    requires forall t :: t in order ==> t in defaults
    ensures var error := AfterDefaults(d, defaults, order, reals).1;
            error.Some? ==> exists t :: t in order && DefaultFor(d, t, defaults[t], reals) == Err(error.value)
  {
    if order != [] {
      var before, taken := AfterDefaultsNext(d, defaults, order, reals);
      RefusedByOne(d, defaults, order[..|order| - 1], reals);
    }
  }

  /** Applies a configuration; a refused default leaves the dictionary as it stood at the throw. */
  method ApplyToDictionary(config: SimulatorConfig, d: Dictionary, reals: RealText)
    returns (r: Result<()>, e: Dictionary, ghost order: seq<string>)
    ensures r.Ok? <==> AllValid(d, config.odDefaults, reals)
    ensures forall t :: t in order ==> t in config.odDefaults
    ensures r.Ok? ==> Enumerates(order, config.odDefaults.Keys)
    ensures var (defaulted, error) := AfterDefaults(d, config.odDefaults, order, reals);
            match error
            case Some(x) => r == Err(x) && e == defaulted
            case None => r == Ok(()) && IsConfigured(defaulted, config, e)
  {
    e, order := d, [];
    var remaining := config.odDefaults.Keys;
    while remaining != {}
      invariant remaining <= config.odDefaults.Keys
      invariant Enumerates(order, config.odDefaults.Keys - remaining)
      invariant AfterDefaults(d, config.odDefaults, order, reals) == (e, None)
      decreases |remaining|
    {
      var keyText :| keyText in remaining;
      EnumeratesVisit(order, config.odDefaults.Keys, remaining, keyText);
      remaining := remaining - {keyText};
      assert (order + [keyText])[..|order|] == order;
      order := order + [keyText];
      DefaultsSucceedIff(d, config.odDefaults, order, reals);
      var key := ParseCanonicalKey(keyText);
      if key.None? {
        return Err(InvalidDefaultKey), e, order;
      }
      if key.value !in e {
        return Err(DefaultKeyUnknown), e, order;
      }
      var value := ParseValue(config.odDefaults[keyText], e[key.value].dataType, reals);
      if value.None? {
        return Err(InvalidText), e, order;
      }
      e := e[key.value := e[key.value].(value := value.value)];
    }
    assert config.odDefaults.Keys - {} == config.odDefaults.Keys;
    DefaultsSucceedIff(d, config.odDefaults, order, reals);
    var m := ApplySinglePdoOverride(0x1400, config.rpdo, e);
    ghost var defaulted := e;
    e := ApplySinglePdoOverride(0x1800, config.tpdo, m);
    SectionsCompose(defaulted, config, m, e);
    r := Ok(());
  }

  lemma {:induction false} DefaultsKeepTyping(d: Dictionary, defaults: map<string, string>, order: seq<string>,
                                              reals: RealText)
    requires forall t :: t in order ==> t in defaults
    requires KeysAgree(d) && WellTyped(d)
    ensures KeysAgree(AfterDefaults(d, defaults, order, reals).0)
    ensures WellTyped(AfterDefaults(d, defaults, order, reals).0)
  {
    if order != [] {
      var text, before := order[|order| - 1], AfterDefaults(d, defaults, order[..|order| - 1], reals);
      DefaultsKeepTyping(d, defaults, order[..|order| - 1], reals);
      if before.1.None? && DefaultFor(before.0, text, defaults[text], reals).Ok? {
        var (k, v) := DefaultFor(before.0, text, defaults[text], reals).value;
        ParsedIsCompatible(defaults[text], before.0[k].dataType, reals);
      }
    }
  }
}
