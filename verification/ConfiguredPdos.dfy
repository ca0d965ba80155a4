/** Communication overrides field by field: where each is stored, and which field of the built PDO it becomes. */
module ConfiguredPdos {
  import opened Types
  import opened Model
  import opened ValueText
  import opened Config
  import opened PdoBuilder

  /** The entry after storing an optional number over the entry there, created when missing; untouched without one. */
  ghost predicate Holds(d: Dictionary, e: Dictionary, index: u16, subIndex: u8, v: Option<int>) {
    var k := ObjectKey(index, subIndex);
    match v
    case Some(n) =>
      && k in e && e[k].value.Unsigned? && e[k].value.unsigned == n
      && e[k] == if k in d then d[k].(key := k, value := e[k].value)
                 else OdEntry(k, "", UnknownType, UnknownAccess, e[k].value)
    case None => (k in e <==> k in d) && (k in d ==> e[k] == d[k])
  }

  /** The COB-ID is at sub-index 1, the transmission type at 2, the inhibit time at 3, the event timer at 5. */
  ghost predicate HoldsOverride(d: Dictionary, e: Dictionary, index: u16, o: PdoOverride) {
    && Holds(d, e, index, 1, o.cobId)
    && Holds(d, e, index, 2, o.transmissionType)
    && Holds(d, e, index, 3, o.inhibitTime)
    && Holds(d, e, index, 5, o.eventTimer)
  }

  /** The fields an override sets have its numbers. */
  predicate Carries(c: Communication, o: PdoOverride) {
    && (o.cobId.Some? ==> c.cobId == o.cobId.value)
    && (o.transmissionType.Some? ==> c.transmissionType == o.transmissionType.value)
    && (o.inhibitTime.Some? ==> c.inhibitTime == o.inhibitTime.value)
    && (o.eventTimer.Some? ==> c.eventTimer == o.eventTimer.value)
  }

  lemma HoldsEffective(d: Dictionary, config: SimulatorConfig, e: Dictionary, index: u16, sub: u8)
    requires IsConfigured(d, config, e)
    ensures Holds(d, e, index, sub, Effective(config, ObjectKey(index, sub)))
  {
    var k := ObjectKey(index, sub);
    assert Effective(config, k).Some? || Effective(config, k).None?;
  }

  lemma HoldsRecord(d: Dictionary, config: SimulatorConfig, e: Dictionary, index: u16)
    requires IsConfigured(d, config, e)
    ensures Holds(d, e, index, 1, Effective(config, ObjectKey(index, 1)))
    ensures Holds(d, e, index, 2, Effective(config, ObjectKey(index, 2)))
    ensures Holds(d, e, index, 3, Effective(config, ObjectKey(index, 3)))
    ensures Holds(d, e, index, 5, Effective(config, ObjectKey(index, 5)))
  {
    HoldsEffective(d, config, e, index, 1);
    HoldsEffective(d, config, e, index, 2);
    HoldsEffective(d, config, e, index, 3);
    HoldsEffective(d, config, e, index, 5);
  }

  /** TPDO n is overridden at 0x1800 + n - 1; the RPDO section reaches that record only with the number n + 1024. */
  lemma TransmitRecord(d: Dictionary, config: SimulatorConfig, e: Dictionary, n: u16)
    requires IsConfigured(d, config, e) && 1 <= n <= 512 && n in config.tpdo && n + 1024 !in config.rpdo
    ensures HoldsOverride(d, e, 0x1800 + n - 1, config.tpdo[n])
  {
    HoldsRecord(d, config, e, 0x1800 + n - 1);
    assert NumberOf(0x1800, 0x1800 + n - 1) == n && NumberOf(0x1400, 0x1800 + n - 1) == n + 1024;
  }

  /** RPDO n is overridden at 0x1400 + n - 1; the TPDO section reaches that record only with the number n + 64512. */
  lemma ReceiveRecord(d: Dictionary, config: SimulatorConfig, e: Dictionary, n: u16)
    requires IsConfigured(d, config, e) && 1 <= n <= 512 && n in config.rpdo && n + 64512 !in config.tpdo
    ensures HoldsOverride(d, e, 0x1400 + n - 1, config.rpdo[n])
  {
    HoldsRecord(d, config, e, 0x1400 + n - 1);
    assert NumberOf(0x1400, 0x1400 + n - 1) == n && NumberOf(0x1800, 0x1400 + n - 1) == n + 64512;
  }

  /** Whatever the RPDO section holds, the fields a TPDO override sets are stored. */
  lemma TransmitWins(d: Dictionary, config: SimulatorConfig, e: Dictionary, n: u16)
    requires IsConfigured(d, config, e) && 1 <= n <= 512 && n in config.tpdo
    ensures var o, index := config.tpdo[n], 0x1800 + n - 1;
            && (o.cobId.Some? ==> Holds(d, e, index, 1, o.cobId))
            && (o.transmissionType.Some? ==> Holds(d, e, index, 2, o.transmissionType))
            && (o.inhibitTime.Some? ==> Holds(d, e, index, 3, o.inhibitTime))
            && (o.eventTimer.Some? ==> Holds(d, e, index, 5, o.eventTimer))
  {
    assert NumberOf(0x1800, 0x1800 + n - 1) == n;
    HoldsRecord(d, config, e, 0x1800 + n - 1);
  }

  /** No other sub-index is ever touched. */
  lemma OtherSubsUntouched(d: Dictionary, config: SimulatorConfig, e: Dictionary, index: u16, sub: u8)
    requires IsConfigured(d, config, e) && sub != 1 && sub != 2 && sub != 3 && sub != 5
    ensures Holds(d, e, index, sub, None)
  {
    HoldsEffective(d, config, e, index, sub);
  }

  /** A built PDO has the numbers stored in its record. */
  lemma BuiltFromRecord(d: Dictionary, e: Dictionary, p: Pdo, o: PdoOverride)
    requires p in BuiltPdos(e) && 1 <= p.number <= 512
    requires HoldsOverride(d, e, (if p.direction.Receive? then 0x1400 else 0x1800) + p.number - 1, o)
    ensures Carries(p.communication, o)
  {
    CommunicationInNumbers(e, p);
    var index := (if p.direction.Receive? then 0x1400 else 0x1800) + p.number - 1;
    assert o.cobId.Some? ==> StandsAt(e, ObjectKey(index, 1), o.cobId.value);
    assert o.transmissionType.Some? ==> StandsAt(e, ObjectKey(index, 2), o.transmissionType.value);
    assert o.inhibitTime.Some? ==> StandsAt(e, ObjectKey(index, 3), o.inhibitTime.value);
    assert o.eventTimer.Some? ==> StandsAt(e, ObjectKey(index, 5), o.eventTimer.value);
  }

  /** The overrides of number n are in their own records, field by field. */
  ghost predicate StoredFor(config: SimulatorConfig, d: Dictionary, e: Dictionary, n: u16)
    requires 1 <= n <= 512
  {
    && (n in config.tpdo && n + 1024 !in config.rpdo ==> HoldsOverride(d, e, 0x1800 + n - 1, config.tpdo[n]))
    && (n in config.rpdo && n + 64512 !in config.tpdo ==> HoldsOverride(d, e, 0x1400 + n - 1, config.rpdo[n]))
  }

  /** Every PDO has the numbers of the override of its own direction and number. */
  predicate CarriedByNumber(config: SimulatorConfig, p: Pdo) {
    && (p.direction.Transmit? && p.number in config.tpdo && p.number + 1024 !in config.rpdo ==>
          Carries(p.communication, config.tpdo[p.number]))
    && (p.direction.Receive? && p.number in config.rpdo && p.number + 64512 !in config.tpdo ==>
          Carries(p.communication, config.rpdo[p.number]))
  }

  lemma AllStored(d: Dictionary, config: SimulatorConfig, e: Dictionary, n: u16)
    requires IsConfigured(d, config, e) && 1 <= n <= 512
    ensures StoredFor(config, d, e, n)
  {
    if n in config.tpdo && n + 1024 !in config.rpdo {
      TransmitRecord(d, config, e, n);
    }
    if n in config.rpdo && n + 64512 !in config.tpdo {
      ReceiveRecord(d, config, e, n);
    }
  }

  lemma AllCarried(d: Dictionary, config: SimulatorConfig, e: Dictionary, p: Pdo)
    requires IsConfigured(d, config, e) && p in BuiltPdos(e)
    ensures CarriedByNumber(config, p)
  {
    CommunicationInNumbers(e, p);
    if p.direction.Transmit? && p.number in config.tpdo && p.number + 1024 !in config.rpdo {
      TransmitRecord(d, config, e, p.number);
      BuiltFromRecord(d, e, p, config.tpdo[p.number]);
    }
    if p.direction.Receive? && p.number in config.rpdo && p.number + 64512 !in config.tpdo {
      ReceiveRecord(d, config, e, p.number);
      BuiltFromRecord(d, e, p, config.rpdo[p.number]);
    }
  }

  /**
   A dictionary configured and built: for numbers 1 to 512 every override is stored field by field in its
   own record and carried by the built PDO of its own direction and number. The builder is called for
   the dictionaries it returns for.
   */
  method ConfigureAndBuild(config: SimulatorConfig, d: Dictionary, reals: RealText)
    returns (r: Result<()>, e: Dictionary, built: Option<BuildResult>, ghost defaulted: Dictionary)
    ensures defaulted.Keys == d.Keys && forall k :: k in d ==> defaulted[k] == d[k].(value := defaulted[k].value)
    ensures r.Ok? ==> forall n :: 1 <= n <= 512 ==> StoredFor(config, defaulted, e, n)
    ensures built.Some? <==> r.Ok? && CountsTerminate(e)
    ensures built.Some? ==> forall p <- built.value.pdos :: CarriedByNumber(config, p)
  {
    ghost var order;
    built, defaulted := None, d;
    r, e, order := ApplyToDictionary(config, d, reals);
    defaulted := AfterDefaults(d, config.odDefaults, order, reals).0;
    if r.Err? {
      return;
    }
    forall n | 1 <= n <= 512
      ensures StoredFor(config, defaulted, e, n)
    {
      AllStored(defaulted, config, e, n);
    }
    if CountsTerminate(e) {
      var result := Build(e);
      built := Some(result);
      forall p | p in result.pdos
        ensures CarriedByNumber(config, p)
      {
        AllCarried(defaulted, config, e, p);
      }
    }
  }
}
