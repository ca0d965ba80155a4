/** The keyword layer: text in, text out, over the simulator. */
module Keywords {
  import opened Types
  import opened Model
  import opened ValueText
  import opened Simulator
  import opened PdoIndexes

  /** What a keyword write to a PDO signal stores and where, or why it is refused before it reaches the simulator. */
  function KeywordSignal(d: Dictionary, pdos: seq<Pdo>, direction: Direction, number: u16, ordinal: nat,
                         text: string, reals: RealText): Result<Value>
  {
    match FirstMatch(pdos, direction, number)
    case None => Err(PdoMissing)
    case Some(pdo) =>
      if ordinal >= |pdo.signals| then Err(OrdinalOutOfRange)
      else
        var k := pdo.signals[ordinal].key;
        if k !in d then Err(EntryMissing)
        else
          match ParseValue(text, d[k].dataType, reals)
          case None => Err(InvalidText)
          case Some(v) => Ok(v)
  }

  class RobotKeywords {
    const simulator: CanNodeSimulator
    const pdos: seq<Pdo>
    const reals: RealText

    constructor (simulator: CanNodeSimulator, pdos: seq<Pdo>, reals: RealText)
      ensures this.simulator == simulator && this.pdos == pdos && this.reals == reals
    {
      this.simulator, this.pdos, this.reals := simulator, pdos, reals;
    }

    method ReadOd(index: u16, subIndex: u8) returns (r: Result<string>)
      ensures var k := ObjectKey(index, subIndex);
              r == if k !in simulator.dictionary then Err(EntryMissing)
                   else if simulator.dictionary[k].access.WriteOnly? then Err(EntryWriteOnly)
                   else Ok(FormatValue(simulator.dictionary[k].value, reals))
    {
      var value :- simulator.ReadOd(index, subIndex);
      return Ok(FormatValue(value, reals));
    }

    method WriteOd(index: u16, subIndex: u8, text: string) returns (r: Result<()>)
      modifies simulator`dictionary
      ensures var d, k := old(simulator.dictionary), ObjectKey(index, subIndex);
              if k !in d then r == Err(EntryMissing) && simulator.dictionary == d
              else
                match ParseValue(text, d[k].dataType, reals)
                case None => r == Err(InvalidText) && simulator.dictionary == d
                case Some(v) =>
                  if Writable(d[k].access) then r == Ok(()) && simulator.dictionary == Store(d, k, v)
                  else r == Err(EntryNotWritable) && simulator.dictionary == d
    {
      var entry :- simulator.ReadOdEntry(index, subIndex);
      var value := ParseValue(text, entry.dataType, reals);
      if value.None? {
        return Err(InvalidText);
      }
      ParsedIsCompatible(text, entry.dataType, reals);
      r := simulator.WriteOd(index, subIndex, value.value);
    }

    method ReadPdoSignal(direction: Direction, number: u16, ordinal: nat) returns (r: Result<string>)
      ensures match MappedValue(simulator.dictionary, simulator.pdoByKey, direction, number, ordinal)
              case Err(e) => r == Err(e)
              case Ok(v) => r == Ok(FormatValue(v, reals))
    {
      var value :- simulator.ReadPdoSignal(direction, number, ordinal);
      return Ok(FormatValue(value, reals));
    }

    /** The type comes from the keyword layer's own PDO list, the target from the simulator's table. */
    method WritePdoSignal(direction: Direction, number: u16, ordinal: nat, text: string) returns (r: Result<()>)
      modifies simulator`dictionary
      ensures var d, table := old(simulator.dictionary), simulator.pdoByKey;
              match KeywordSignal(d, pdos, direction, number, ordinal, text, reals)
              case Err(e) => r == Err(e) && simulator.dictionary == d
              case Ok(v) =>
                match MappedKey(table, direction, number, ordinal)
                case Err(e) => r == Err(e) && simulator.dictionary == d
                case Ok(k) =>
                  if Accepts(d, k, v) then r == Ok(()) && simulator.dictionary == Store(d, k, v)
                  else r == Err(RefusalError(d, k, v)) && simulator.dictionary == d
    {
      var found := ScanPdo(pdos, direction, number);
      if found.None? {
        return Err(PdoMissing);
      }
      if ordinal >= |found.value.signals| {
        return Err(OrdinalOutOfRange);
      }
      var k := found.value.signals[ordinal].key;
      var entry :- simulator.ReadOdEntry(k.index, k.subIndex);
      var value := ParseValue(text, entry.dataType, reals);
      if value.None? {
        return Err(InvalidText);
      }
      r := simulator.WritePdoSignal(direction, number, ordinal, value.value);
    }
  }

  /** On a readable and writable entry of the value's own type, the printed text comes back unchanged. */
  method WriteThenRead(keywords: RobotKeywords, k: ObjectKey, v: Value)
    returns (written: Result<()>, text: Result<string>)
    requires k in keywords.simulator.dictionary
    requires var entry := keywords.simulator.dictionary[k];
             && Writable(entry.access) && !entry.access.WriteOnly?
             && Compatible(entry.dataType, v) && !v.Empty? && !v.Real? && (entry.dataType.UnknownType? ==> v.Text?)
    modifies keywords.simulator`dictionary
    ensures written == Ok(()) && text == Ok(FormatValue(v, keywords.reals))
    ensures keywords.simulator.dictionary == Store(old(keywords.simulator.dictionary), k, v)
  {
    FormatRoundTrip(v, keywords.simulator.dictionary[k].dataType, keywords.reals);
    written := keywords.WriteOd(k.index, k.subIndex, FormatValue(v, keywords.reals));
    text := keywords.ReadOd(k.index, k.subIndex);
  }

  /** What ReadOd shows of every readable value. */
  method ReadShown(keywords: RobotKeywords, k: ObjectKey) returns (text: Result<string>)
    requires k in keywords.simulator.dictionary && !keywords.simulator.dictionary[k].access.WriteOnly?
    ensures text.Ok? && IsShown(keywords.simulator.dictionary[k].value, text.value, keywords.reals)
  {
    ShownByKind(keywords.simulator.dictionary[k].value, keywords.reals);
    text := keywords.ReadOd(k.index, k.subIndex);
  }

  /** The six texts a writable boolean entry takes, and the flag each of them stores. */
  method WriteBoolean(keywords: RobotKeywords, k: ObjectKey, text: string) returns (r: Result<()>)
    requires var d := keywords.simulator.dictionary;
             && k in d && d[k].dataType.Boolean? && !d[k].access.ReadOnly? && !d[k].access.Constant?
    modifies keywords.simulator`dictionary
    ensures var d, e := old(keywords.simulator.dictionary), keywords.simulator.dictionary;
            if text == "1" || text == "true" || text == "TRUE" then
              r == Ok(()) && e == d[k := d[k].(value := Flag(true))]
            else if text == "0" || text == "false" || text == "FALSE" then
              r == Ok(()) && e == d[k := d[k].(value := Flag(false))]
            else r == Err(InvalidText) && e == d
  {
    BooleanTexts(text, keywords.reals);
    r := keywords.WriteOd(k.index, k.subIndex, text);
  }

  /**
   A printed value written through a PDO signal both layers know: it is stored in the mapped entry when that
   entry's own type takes it and the entry may be written, and unknown PDOs, signals and entries are refused.
   */
  method WriteSignalPrinted(keywords: RobotKeywords, direction: Direction, number: u16, ordinal: nat, v: Value)
    returns (r: Result<()>)
    requires FirstMatch(keywords.pdos, direction, number)
          == RequirePdo(keywords.simulator.pdoByKey, direction, number)
    requires !v.Empty? && !v.Real?
    modifies keywords.simulator`dictionary
    ensures var d, e := old(keywords.simulator.dictionary), keywords.simulator.dictionary;
            match RequirePdo(keywords.simulator.pdoByKey, direction, number)
            case None => r == Err(PdoMissing) && e == d
            case Some(p) =>
              if ordinal >= |p.signals| then r == Err(OrdinalOutOfRange) && e == d
              else
                var k := p.signals[ordinal].key;
                if k !in d then r == Err(EntryMissing) && e == d
                else if d[k].access.ReadOnly? || d[k].access.Constant? then r.Err? && e == d
                else
                  TakesKind(d[k].dataType, v) && (d[k].dataType.UnknownType? ==> v.Text?) ==>
                    r == Ok(()) && e == d[k := d[k].(value := v)]
  {
    ghost var d, p := keywords.simulator.dictionary, RequirePdo(keywords.simulator.pdoByKey, direction, number);
    if p.Some? && ordinal < |p.value.signals| && p.value.signals[ordinal].key in d {
      ghost var k := p.value.signals[ordinal].key;
      AcceptedIff(d, k, v);
      if TakesKind(d[k].dataType, v) && (d[k].dataType.UnknownType? ==> v.Text?) {
        FormatRoundTrip(v, d[k].dataType, keywords.reals);
      }
    }
    r := keywords.WritePdoSignal(direction, number, ordinal, FormatValue(v, keywords.reals));
  }
}
