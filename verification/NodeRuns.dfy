/** Everything that can change a node's dictionary while it runs, and what no run can change. */
module NodeRuns {
  import opened Types
  import opened Model
  import opened ValueText
  import opened Simulator
  import opened PdoCodec
  import opened Frames
  import opened Transport
  import opened Keywords

  /** The fixed parts of a running node. */
  datatype Node = Node(table: PdoTable, rpdos: map<nat, Pdo>, pdos: seq<Pdo>, reals: RealText)

  datatype Op =
    | WriteEntry(key: ObjectKey, value: Value)
    | WriteSignal(direction: Direction, number: u16, ordinal: nat, value: Value)
    | KeywordEntry(key: ObjectKey, text: string)
    | KeywordSignalWrite(direction: Direction, number: u16, ordinal: nat, text: string)
    | FrameIn(canId: nat, data: seq<u8>, dlc: nat)

  /** Frames are as the kernel delivers them: 11-bit identifiers and at most eight data bytes. */
  predicate Deliverable(op: Op) {
    op.FrameIn? ==> op.canId < 0x800 && |op.data| == CAN_MAX_DATA_LEN && op.dlc <= CAN_MAX_DATA_LEN
  }

  function Attempted(d: Dictionary, target: Result<ObjectKey>, v: Value): Dictionary {
    if target.Ok? && Accepts(d, target.value, v) then Store(d, target.value, v) else d
  }

  lemma FrameFits(signals: seq<Signal>, payload: seq<u8>)
    requires |payload| <= CAN_MAX_DATA_LEN
    ensures FitsWord(signals, payload)
  {
  }

  /** The dictionary after one operation. */
  ghost function After(node: Node, d: Dictionary, op: Op): Dictionary
    requires Deliverable(op)
  {
    match op
    case WriteEntry(k, v) => Attempted(d, Ok(k), v)
    case WriteSignal(direction, number, ordinal, v) =>
      Attempted(d, MappedKey(node.table, direction, number, ordinal), v)
    case KeywordEntry(k, text) =>
      if k !in d then d
      else
        (match ParseValue(text, d[k].dataType, node.reals)
         case None => d
         case Some(v) => Attempted(d, Ok(k), v))
    case KeywordSignalWrite(direction, number, ordinal, text) =>
      (match KeywordSignal(d, node.pdos, direction, number, ordinal, text, node.reals)
       case Err(_) => d
       case Ok(v) => Attempted(d, MappedKey(node.table, direction, number, ordinal), v))
    case FrameIn(canId, data, dlc) =>
      if Classify(canId) != Process || canId !in node.rpdos then d
      else
        FrameFits(node.rpdos[canId].signals, data[..dlc]);
        Applied(d, node.table, node.rpdos[canId], data[..dlc],
                FirstRefused(d, node.table, node.rpdos[canId], data[..dlc], 0))
  }

  /** The dictionary with v stored at k where the entry may be written and takes it, and unchanged otherwise. */
  ghost function Written(d: Dictionary, k: ObjectKey, v: Value): Dictionary {
    if k in d && (d[k].access.ReadWrite? || d[k].access.WriteOnly? || d[k].access.UnknownAccess?)
       && TakesKind(d[k].dataType, v)
    then d[k := d[k].(value := v)]
    else d
  }

  /**
   Direct writes and keyword writes of printed values do the same, through an entry's key or through a
   signal mapped to it; a signal that is not in the table writes nothing.
   */
  lemma WritesByKind(node: Node, d: Dictionary, k: ObjectKey, v: Value, direction: Direction, number: u16, ordinal: nat)
    ensures After(node, d, WriteEntry(k, v)) == Written(d, k, v)
    ensures !v.Empty? && !v.Real? && k in d && TakesKind(d[k].dataType, v)
            && (d[k].dataType.UnknownType? ==> v.Text?) ==>
              After(node, d, KeywordEntry(k, FormatValue(v, node.reals))) == Written(d, k, v)
    ensures match RequirePdo(node.table, direction, number)
            case None => After(node, d, WriteSignal(direction, number, ordinal, v)) == d
            case Some(p) =>
              After(node, d, WriteSignal(direction, number, ordinal, v))
              == if ordinal < |p.signals| then Written(d, p.signals[ordinal].key, v) else d
  {
    AcceptedIff(d, k, v);
    if !v.Empty? && !v.Real? && k in d && TakesKind(d[k].dataType, v) && (d[k].dataType.UnknownType? ==> v.Text?) {
      FormatRoundTrip(v, d[k].dataType, node.reals);
    }
    var p := RequirePdo(node.table, direction, number);
    if p.Some? && ordinal < |p.value.signals| {
      AcceptedIff(d, p.value.signals[ordinal].key, v);
    }
  }

  ghost function Run(node: Node, d: Dictionary, ops: seq<Op>): Dictionary
    requires forall op :: op in ops ==> Deliverable(op)
  {
    if ops == [] then d else After(node, Run(node, d, ops[..|ops| - 1]), ops[|ops| - 1])
  }

  /** What every run keeps: keys, names, types and access rights; read-only values; the typing of values. */
  ghost predicate Safe(d: Dictionary, e: Dictionary) {
    && d.Keys == e.Keys
    && forall k :: k in d ==> SafeEntry(d[k], e[k])
  }

  predicate SafeEntry(before: OdEntry, after: OdEntry) {
    && after == before.(value := after.value)
    && (after.value != before.value ==> Writable(before.access) && Compatible(before.dataType, after.value))
  }

  lemma SafeTransitive(d: Dictionary, e: Dictionary, f: Dictionary)
    requires Safe(d, e) && Safe(e, f)
    ensures Safe(d, f)
  {
    forall k | k in d
      ensures SafeEntry(d[k], f[k])
    {
      assert SafeEntry(d[k], e[k]) && SafeEntry(e[k], f[k]);
    }
  }

  lemma AttemptedSafe(d: Dictionary, target: Result<ObjectKey>, v: Value)
    ensures Safe(d, Attempted(d, target, v))
  {
  }

  lemma {:induction false} AppliedEntrySafe(d: Dictionary, table: PdoTable, pdo: Pdo, payload: seq<u8>, n: nat,
                                            k: ObjectKey)
    requires n <= |pdo.signals| && FitsWord(pdo.signals, payload)
    requires StepsAccepted(d, table, pdo, payload, n) && k in d
    ensures SafeEntry(d[k], Applied(d, table, pdo, payload, n)[k])
  {
    if n > 0 {
      var before, key, v := AppliedNext(d, table, pdo, payload, n);
      AppliedEntrySafe(d, table, pdo, payload, n - 1, k);
    }
  }

  lemma AppliedSafe(d: Dictionary, table: PdoTable, pdo: Pdo, payload: seq<u8>, n: nat)
    requires n <= |pdo.signals| && FitsWord(pdo.signals, payload)
    requires StepsAccepted(d, table, pdo, payload, n)
    ensures Safe(d, Applied(d, table, pdo, payload, n))
  {
    forall k | k in d
      ensures SafeEntry(d[k], Applied(d, table, pdo, payload, n)[k])
    {
      AppliedEntrySafe(d, table, pdo, payload, n, k);
    }
  }

  lemma AfterSafe(node: Node, d: Dictionary, op: Op)
    requires Deliverable(op)
    ensures Safe(d, After(node, d, op))
  {
    match op
    case WriteEntry(k, v) => AttemptedSafe(d, Ok(k), v);
    case WriteSignal(direction, number, ordinal, v) =>
      AttemptedSafe(d, MappedKey(node.table, direction, number, ordinal), v);
    case KeywordEntry(k, text) =>
      if k in d {
        var v := ParseValue(text, d[k].dataType, node.reals);
        if v.Some? {
          AttemptedSafe(d, Ok(k), v.value);
        }
      }
    case KeywordSignalWrite(direction, number, ordinal, text) =>
      var v := KeywordSignal(d, node.pdos, direction, number, ordinal, text, node.reals);
      if v.Ok? {
        AttemptedSafe(d, MappedKey(node.table, direction, number, ordinal), v.value);
      }
    case FrameIn(canId, data, dlc) =>
      if Classify(canId) == Process && canId in node.rpdos {
        var pdo, payload := node.rpdos[canId], data[..dlc];
        FrameFits(pdo.signals, payload);
        AppliedSafe(d, node.table, pdo, payload, FirstRefused(d, node.table, pdo, payload, 0));
      }
  }

  /** Over every run of writes, keywords and received frames the dictionary stays safe. */
  lemma {:induction false} RunSafe(node: Node, d: Dictionary, ops: seq<Op>)
    requires forall op :: op in ops ==> Deliverable(op)
    ensures Safe(d, Run(node, d, ops))
  {
    if ops != [] {
      var before := Run(node, d, ops[..|ops| - 1]);
      RunSafe(node, d, ops[..|ops| - 1]);
      AfterSafe(node, before, ops[|ops| - 1]);
      SafeTransitive(d, before, After(node, before, ops[|ops| - 1]));
    }
  }

  /** Spelled out: metadata never changes, read-only and constant entries keep their value, types stay right. */
  lemma RunKeeps(node: Node, d: Dictionary, ops: seq<Op>, k: ObjectKey)
    requires (forall op :: op in ops ==> Deliverable(op)) && k in d
    ensures var e := Run(node, d, ops);
            && k in e && e.Keys == d.Keys
            && e[k].key == d[k].key && e[k].name == d[k].name
            && e[k].dataType == d[k].dataType && e[k].access == d[k].access
            && (d[k].access.ReadOnly? || d[k].access.Constant? ==> e[k].value == d[k].value)
            && (Compatible(d[k].dataType, d[k].value) ==> Compatible(e[k].dataType, e[k].value))
  {
    RunSafe(node, d, ops);
    assert SafeEntry(d[k], Run(node, d, ops)[k]);
  }

  /** Carries out one operation on the live objects. */
  method Perform(op: Op, keywords: RobotKeywords, transport: SocketCanTransport, ghost node: Node)
    requires Deliverable(op) && transport.Valid() && transport.simulator == keywords.simulator
    requires node == Node(keywords.simulator.pdoByKey, transport.rpdoByCobId, keywords.pdos, keywords.reals)
    modifies transport`writes, transport`attempts, keywords.simulator`dictionary
    ensures transport.Valid()
    ensures keywords.simulator.dictionary == After(node, old(keywords.simulator.dictionary), op)
  {
    match op
    case WriteEntry(k, v) =>
      var _ := keywords.simulator.WriteOd(k.index, k.subIndex, v);
    case WriteSignal(direction, number, ordinal, v) =>
      var _ := keywords.simulator.WritePdoSignal(direction, number, ordinal, v);
    case KeywordEntry(k, text) =>
      ghost var d := keywords.simulator.dictionary;
      if k in d && ParseValue(text, d[k].dataType, keywords.reals).Some? {
        ParsedIsCompatible(text, d[k].dataType, keywords.reals);
      }
      var _ := keywords.WriteOd(k.index, k.subIndex, text);
    case KeywordSignalWrite(direction, number, ordinal, text) =>
      var _ := keywords.WritePdoSignal(direction, number, ordinal, text);
    case FrameIn(canId, data, dlc) =>
      ghost var order, sent := transport.HandleFrame(canId, data, dlc);
  }

  /** A whole run on the live objects ends in the dictionary the specification predicts. */
  method PerformAll(ops: seq<Op>, keywords: RobotKeywords, transport: SocketCanTransport, ghost node: Node)
    requires (forall op :: op in ops ==> Deliverable(op))
    requires transport.Valid() && transport.simulator == keywords.simulator
    requires node == Node(keywords.simulator.pdoByKey, transport.rpdoByCobId, keywords.pdos, keywords.reals)
    modifies transport`writes, transport`attempts, keywords.simulator`dictionary
    ensures transport.Valid()
    ensures keywords.simulator.dictionary == Run(node, old(keywords.simulator.dictionary), ops)
    ensures Safe(old(keywords.simulator.dictionary), keywords.simulator.dictionary)
  {
    ghost var d := keywords.simulator.dictionary;
    for i := 0 to |ops|
      invariant transport.Valid()
      invariant keywords.simulator.dictionary == Run(node, d, ops[..i])
    {
      assert ops[..i + 1][..i] == ops[..i] && ops[..i + 1][i] == ops[i];
      Perform(ops[i], keywords, transport, node);
    }
    assert ops[..|ops|] == ops;
    RunSafe(node, d, ops);
  }
}
