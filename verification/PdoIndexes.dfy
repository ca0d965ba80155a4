/** The three indexes over one PDO list: the keyword scan, the simulator's table and the transport's maps. */
module PdoIndexes {
  import opened Types
  import opened Model
  import opened Simulator
  import opened PdoBuilder
  import opened Frames
  import opened Transport

  /** The keyword layer's RequirePdo_: the first definition in list order. */
  method ScanPdo(pdos: seq<Pdo>, direction: Direction, number: u16) returns (found: Option<Pdo>)
    ensures found == FirstMatch(pdos, direction, number)
    ensures found.None? <==> forall k :: 0 <= k < |pdos| ==> !IsPdo(pdos[k], direction, number)
  {
    for i := 0 to |pdos|
      invariant forall k :: 0 <= k < i ==> !IsPdo(pdos[k], direction, number)
      invariant FirstMatch(pdos, direction, number) == FirstMatch(pdos[i..], direction, number)
    {
      assert pdos[i..][1..] == pdos[i + 1..];
      if IsPdo(pdos[i], direction, number) {
        return Some(pdos[i]);
      }
    }
    return None;
  }

  function FirstMatch(pdos: seq<Pdo>, direction: Direction, number: u16): Option<Pdo> {
    if pdos == [] then None
    else if IsPdo(pdos[0], direction, number) then Some(pdos[0])
    else FirstMatch(pdos[1..], direction, number)
  }

  lemma {:induction false} FirstMatchIs(pdos: seq<Pdo>, direction: Direction, number: u16, i: nat)
    requires i < |pdos| && IsPdo(pdos[i], direction, number)
    requires forall k :: 0 <= k < i ==> !IsPdo(pdos[k], direction, number)
    ensures FirstMatch(pdos, direction, number) == Some(pdos[i])
  {
    if i > 0 {
      FirstMatchIs(pdos[1..], direction, number, i - 1);
    }
  }

  lemma {:induction false} FirstMatchNone(pdos: seq<Pdo>, direction: Direction, number: u16)
    requires forall k :: 0 <= k < |pdos| ==> !IsPdo(pdos[k], direction, number)
    ensures FirstMatch(pdos, direction, number) == None
  {
    if pdos != [] {
      FirstMatchNone(pdos[1..], direction, number);
    }
  }

  /** The simulator's table finds the last definition with a direction and number. */
  lemma TableLookup(pdos: seq<Pdo>, direction: Direction, number: u16)
    ensures match RequirePdo(TableOf(pdos), direction, number)
            case None => forall i :: 0 <= i < |pdos| ==> !IsPdo(pdos[i], direction, number)
            case Some(p) =>
              exists i :: 0 <= i < |pdos| && p == pdos[i] && IsPdo(pdos[i], direction, number)
                && forall k :: i < k < |pdos| ==> !IsPdo(pdos[k], direction, number)
  {
    var key := PdoKey(direction, number);
    LastWinsIsScan(pdos, TableKey, key);
    forall i | 0 <= i < |pdos|
      ensures TableKey(pdos[i]) == Some(key) <==> IsPdo(pdos[i], direction, number)
    {
      if TableKey(pdos[i]) == Some(key) {
        PdoKeyInjective(pdos[i].direction, pdos[i].number, direction, number);
      }
    }
    var last := LastWith(pdos, TableKey, key);
    assert last >= 0 ==> IsPdo(pdos[last], direction, number);
  }

  /** For a list without repeated numbers all three indexes return the same definition, or all report absence. */
  lemma IndexesAgree(pdos: seq<Pdo>, direction: Direction, number: u16)
    requires DistinctNumbers(pdos)
    ensures FirstMatch(pdos, direction, number) == RequirePdo(TableOf(pdos), direction, number)
    ensures direction.Transmit? ==>
              var tpdos := LastWins(pdos, TpdoKey);
              FirstMatch(pdos, direction, number) == if number in tpdos then Some(tpdos[number]) else None
  {
    TableLookup(pdos, direction, number);
    var found := RequirePdo(TableOf(pdos), direction, number);
    if found.None? {
      FirstMatchNone(pdos, direction, number);
    } else {
      var i :| 0 <= i < |pdos| && found == Some(pdos[i]) && IsPdo(pdos[i], direction, number)
               && forall k :: i < k < |pdos| ==> !IsPdo(pdos[k], direction, number);
      FirstMatchIs(pdos, direction, number, i);
    }
    if direction.Transmit? {
      TransmitLookup(pdos, number);
    }
  }

  /** The transport's TPDO map agrees with the simulator's table for any list, repeated numbers or not. */
  lemma {:induction false} TransmitLookup(pdos: seq<Pdo>, number: u16)
    ensures var tpdos := LastWins(pdos, TpdoKey);
            RequirePdo(TableOf(pdos), Transmit, number) == if number in tpdos then Some(tpdos[number]) else None
  {
    if pdos != [] {
      var last := pdos[|pdos| - 1];
      TransmitLookup(pdos[..|pdos| - 1], number);
      if PdoKey(last.direction, last.number) == PdoKey(Transmit, number) {
        PdoKeyInjective(last.direction, last.number, Transmit, number);
      }
    }
  }

  /** The list Build produces has no repeated numbers, so its three indexes agree. */
  lemma BuiltIndexesAgree(d: Dictionary, direction: Direction, number: u16)
    ensures var pdos := BuiltPdos(d);
            && FirstMatch(pdos, direction, number) == RequirePdo(TableOf(pdos), direction, number)
            && (direction.Transmit? ==>
                  var tpdos := LastWins(pdos, TpdoKey);
                  FirstMatch(pdos, direction, number) == if number in tpdos then Some(tpdos[number]) else None)
  {
    BuiltContents(d);
    IndexesAgree(BuiltPdos(d), direction, number);
  }

  /**
   The receive map holds, for each masked COB-ID, the last RPDO of the list that has it, and the
   simulator finds the same definition under its number when numbers are not repeated.
   */
  lemma ReceiveLookup(pdos: seq<Pdo>, canId: nat)
    ensures var rpdos := LastWins(pdos, RpdoKey);
            canId in rpdos <==>
            exists i :: 0 <= i < |pdos| && pdos[i].direction.Receive? && Mask(pdos[i].communication.cobId) == canId
    ensures var rpdos := LastWins(pdos, RpdoKey);
            canId in rpdos ==>
            exists i :: 0 <= i < |pdos| && rpdos[canId] == pdos[i] && pdos[i].direction.Receive?
              && Mask(pdos[i].communication.cobId) == canId
              && forall k :: i < k < |pdos| ==>
                   !(pdos[k].direction.Receive? && Mask(pdos[k].communication.cobId) == canId)
    ensures var rpdos := LastWins(pdos, RpdoKey);
            canId in rpdos && DistinctNumbers(pdos) ==>
            RequirePdo(TableOf(pdos), Receive, rpdos[canId].number) == Some(rpdos[canId])
  {
    LastWinsIsScan(pdos, RpdoKey, canId);
    var rpdos := LastWins(pdos, RpdoKey);
    var last := LastWith(pdos, RpdoKey, canId);
    assert forall k :: 0 <= k < |pdos| ==>
      (RpdoKey(pdos[k]) == Some(canId) <==> pdos[k].direction.Receive? && Mask(pdos[k].communication.cobId) == canId);
    if canId in rpdos && DistinctNumbers(pdos) {
      var number := pdos[last].number;
      assert IsPdo(pdos[last], Receive, number);
      TableLookup(pdos, Receive, number);
    }
  }

  /** A simulator and a transport made from one list without repeated numbers see the same PDOs. */
  lemma SharedListCoheres(pdos: seq<Pdo>, transport: SocketCanTransport)
    requires DistinctNumbers(pdos)
    requires transport.simulator.pdoByKey == TableOf(pdos)
    requires transport.tpdoByNumber == LastWins(pdos, TpdoKey) && transport.rpdoByCobId == LastWins(pdos, RpdoKey)
    ensures transport.Coherent()
  {
    forall n | n in transport.tpdoByNumber
      ensures RequirePdo(transport.simulator.pdoByKey, Transmit, n) == Some(transport.tpdoByNumber[n])
    {
      TransmitLookup(pdos, n);
    }
    forall c | c in transport.rpdoByCobId
      ensures RequirePdo(transport.simulator.pdoByKey, Receive, transport.rpdoByCobId[c].number)
              == Some(transport.rpdoByCobId[c])
    {
      ReceiveLookup(pdos, c);
    }
  }
}
