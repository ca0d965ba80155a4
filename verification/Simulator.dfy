/** The stateful object dictionary and its PDO views. */
module Simulator {
  import opened Types
  import opened Bits
  import opened Model

  // ----- Hash-map indexes filled in list order -----

  /** The map left by inserting the keyed items in order: a later item replaces an earlier one. */
  function LastWins<K(==), V>(items: seq<V>, key: V -> Option<K>): map<K, V> {
    if items == [] then map[]
    else
      var last := items[|items| - 1];
      var before := LastWins(items[..|items| - 1], key);
      match key(last)
      case Some(k) => before[k := last]
      case None => before
  }

  /** The position of the last item with key k, or -1. */
  function LastWith<K(==), V>(items: seq<V>, key: V -> Option<K>, k: K): (n: int)
    ensures -1 <= n < |items|
    ensures n >= 0 ==> key(items[n]) == Some(k)
    ensures forall i :: n < i < |items| ==> key(items[i]) != Some(k)
  {
    if items == [] then -1
    else if key(items[|items| - 1]) == Some(k) then |items| - 1
    else LastWith(items[..|items| - 1], key, k)
  }

  /** Looking a key up in the map is scanning the list from its end. */
  lemma {:induction false} LastWinsIsScan<K, V>(items: seq<V>, key: V -> Option<K>, k: K)
    ensures k in LastWins(items, key) <==> LastWith(items, key, k) >= 0
    ensures k in LastWins(items, key) ==> LastWins(items, key)[k] == items[LastWith(items, key, k)]
  {
    if items != [] {
      LastWinsIsScan(items[..|items| - 1], key, k);
    }
  }

  // ----- PDO table -----

  type PdoTable = map<nat, Pdo>

  function PdoKey(direction: Direction, number: u16): nat {
    Or(U32(Shl(if direction.Receive? then 0 else 1, 16)), number)
  }

  /** Direction and number are packed side by side, so the packed key determines both. */
  lemma PdoKeyPacks(direction: Direction, number: u16)
    ensures PdoKey(direction, number) == (if direction.Receive? then 0 else 0x1_0000) + number
  {
    var part := if direction.Receive? then 0 else 1;
    var high := Shl(part, 16);
    assert high == 0x1_0000 * part by {
      ShlByte(part, 0);
      ShlByte(part, 8);
    }
    assert U32(high) == high;
    OrCommutes(high, number);
    PowConstants();
    OrDisjoint(number, part, 16);
  }

  lemma PdoKeyInjective(d1: Direction, n1: u16, d2: Direction, n2: u16)
    requires PdoKey(d1, n1) == PdoKey(d2, n2)
    ensures d1 == d2 && n1 == n2
  {
    PdoKeyPacks(d1, n1);
    PdoKeyPacks(d2, n2);
  }

  function TableKey(pdo: Pdo): Option<nat> {
    Some(PdoKey(pdo.direction, pdo.number))
  }

  function TableOf(pdos: seq<Pdo>): PdoTable {
    LastWins(pdos, TableKey)
  }

  function RequirePdo(table: PdoTable, direction: Direction, number: u16): Option<Pdo> {
    var k := PdoKey(direction, number);
    if k in table then Some(table[k]) else None
  }

  /** The dictionary key a PDO signal is mapped to, looked up in the simulator's own table. */
  function MappedKey(table: PdoTable, direction: Direction, number: u16, ordinal: nat): Result<ObjectKey> {
    match RequirePdo(table, direction, number)
    case None => Err(PdoMissing)
    case Some(pdo) => if ordinal < |pdo.signals| then Ok(pdo.signals[ordinal].key) else Err(OrdinalOutOfRange)
  }

  /** The value behind a PDO signal. */
  function MappedValue(d: Dictionary, table: PdoTable, direction: Direction, number: u16, ordinal: nat): Result<Value> {
    match MappedKey(table, direction, number, ordinal)
    case Err(e) => Err(e)
    case Ok(k) => if k in d then Ok(d[k].value) else Err(EntryMissing)
  }

  class CanNodeSimulator {
    var dictionary: Dictionary
    var pdoByKey: PdoTable

    constructor (dictionary: Dictionary, pdos: seq<Pdo>)
      ensures this.dictionary == dictionary
      ensures pdoByKey == TableOf(pdos)
    {
      this.dictionary := dictionary;
      pdoByKey := map[];
      new;
      for i := 0 to |pdos|
        invariant this.dictionary == dictionary
        invariant pdoByKey == TableOf(pdos[..i])
      {
        pdoByKey := pdoByKey[PdoKey(pdos[i].direction, pdos[i].number) := pdos[i]];
        assert pdos[..i + 1][..i] == pdos[..i];
      }
      assert pdos[..|pdos|] == pdos;
    }

    method ReadOd(index: u16, subIndex: u8) returns (r: Result<Value>)
      ensures var k := ObjectKey(index, subIndex);
              r == if k !in dictionary then Err(EntryMissing)
                   else if dictionary[k].access.WriteOnly? then Err(EntryWriteOnly)
                   else Ok(dictionary[k].value)
    {
      var entry :- ReadOdEntry(index, subIndex);
      if entry.access.WriteOnly? {
        return Err(EntryWriteOnly);
      }
      return Ok(entry.value);
    }

    method ReadOdEntry(index: u16, subIndex: u8) returns (r: Result<OdEntry>)
      ensures var k := ObjectKey(index, subIndex);
              r == if k in dictionary then Ok(dictionary[k]) else Err(EntryMissing)
    {
      var k := ObjectKey(index, subIndex);
      if k !in dictionary {
        return Err(EntryMissing);
      }
      return Ok(dictionary[k]);
    }

    method WriteOd(index: u16, subIndex: u8, value: Value) returns (r: Result<()>)
      modifies this`dictionary
      ensures var k := ObjectKey(index, subIndex);
              if Accepts(old(dictionary), k, value)
              then r == Ok(()) && dictionary == Store(old(dictionary), k, value)
              else r == Err(RefusalError(old(dictionary), k, value)) && dictionary == old(dictionary)
    {
      var k := ObjectKey(index, subIndex);
      var entry :- ReadOdEntry(index, subIndex);
      if !Writable(entry.access) {
        return Err(EntryNotWritable);
      }
      if !Compatible(entry.dataType, value) {
        return Err(TypeMismatch);
      }
      dictionary := dictionary[k := entry.(value := value)];
      return Ok(());
    }

    method ReadPdoSignal(direction: Direction, number: u16, ordinal: nat) returns (r: Result<Value>)
      ensures r == MappedValue(dictionary, pdoByKey, direction, number, ordinal)
    {
      var found := RequirePdo(pdoByKey, direction, number);
      if found.None? {
        return Err(PdoMissing);
      }
      if ordinal >= |found.value.signals| {
        return Err(OrdinalOutOfRange);
      }
      var k := found.value.signals[ordinal].key;
      var entry :- ReadOdEntry(k.index, k.subIndex);
      return Ok(entry.value);
    }

    method WritePdoSignal(direction: Direction, number: u16, ordinal: nat, value: Value) returns (r: Result<()>)
      modifies this`dictionary
      ensures match MappedKey(pdoByKey, direction, number, ordinal)
              case Err(e) => r == Err(e) && dictionary == old(dictionary)
              case Ok(k) =>
                if Accepts(old(dictionary), k, value)
                then r == Ok(()) && dictionary == Store(old(dictionary), k, value)
                else r == Err(RefusalError(old(dictionary), k, value)) && dictionary == old(dictionary)
    {
      var found := RequirePdo(pdoByKey, direction, number);
      if found.None? {
        return Err(PdoMissing);
      }
      if ordinal >= |found.value.signals| {
        return Err(OrdinalOutOfRange);
      }
      var k := found.value.signals[ordinal].key;
      var entry :- ReadOdEntry(k.index, k.subIndex);
      if !Writable(entry.access) {
        return Err(EntryNotWritable);
      }
      if !Compatible(entry.dataType, value) {
        return Err(TypeMismatch);
      }
      dictionary := dictionary[k := entry.(value := value)];
      return Ok(());
    }
  }
}
