/** From one node's dictionary through a frame into another's, and from configured dictionary to running node. */
module EndToEnd {
  import opened Types
  import opened Bits
  import opened Model
  import opened Simulator
  import opened PdoCodec
  import opened Frames
  import opened ValueText
  import opened Walks
  import opened ConfigOrder
  import opened Keywords
  import EdsText
  import EdsParser
  import opened Config
  import opened PdoBuilder
  import opened PdoIndexes
  import opened Transport
  import opened Scheduler
  import opened Timing

  /** The two mappings cut the payload at the same places. */
  predicate SameWidths(a: seq<Signal>, b: seq<Signal>) {
    |a| == |b| && forall i :: 0 <= i < |a| ==> a[i].bitLength == b[i].bitLength
  }

  lemma {:induction false} SameOffsets(a: seq<Signal>, b: seq<Signal>, j: nat)
    requires SameWidths(a, b) && j <= |a|
    ensures Offset(a, j) == Offset(b, j)
  {
    if j > 0 {
      SameOffsets(a, b, j - 1);
    }
  }

  /** Every signal of an RPDO is mapped to an entry that takes unsigned values. */
  predicate Receptive(d: Dictionary, rpdo: Pdo) {
    forall i :: 0 <= i < |rpdo.signals| ==> Accepts(d, rpdo.signals[i].key, Unsigned(0))
  }

  /** The value slice j of a sent payload carries. */
  lemma SentSlice(d: Dictionary, table: PdoTable, tpdo: Pdo, signals: seq<Signal>, payload: seq<u8>, j: nat)
    requires Payload(d, table, tpdo) == Ok(payload) && SameWidths(tpdo.signals, signals) && j < |signals|
    ensures Offset(signals, j + 1) <= |payload|
    ensures Readable(d, table, tpdo, j).Ok?
    ensures SliceValue(signals, payload, j)
         == Readable(d, table, tpdo, j).value % Pow2(8 * Width(signals[j]))
  {
    EncodedSlice(d, table, tpdo, |tpdo.signals|, j);
    SameOffsets(tpdo.signals, signals, j);
    SameOffsets(tpdo.signals, signals, j + 1);
    ValueOfSlice(payload, Offset(signals, j), Offset(signals, j + 1),
                 Readable(d, table, tpdo, j).value, Width(signals[j]));
  }

  lemma ValueOfSlice(payload: seq<u8>, lo: nat, hi: nat, v: nat, width: nat)
    requires lo <= hi <= |payload| && payload[lo..hi] == LeBytes(v, width)
    ensures LeValue(payload[lo..hi]) == v % Pow2(8 * width)
  {
    LeValueOfBytes(v, width);
  }

  lemma DeliveryAccepted(d: Dictionary, tableA: PdoTable, tpdo: Pdo, payload: seq<u8>,
                         e: Dictionary, tableB: PdoTable, rpdo: Pdo)
    requires Payload(d, tableA, tpdo) == Ok(payload)
    requires RequirePdo(tableB, Receive, rpdo.number) == Some(rpdo)
    requires SameWidths(tpdo.signals, rpdo.signals) && Receptive(e, rpdo)
    ensures FitsWord(rpdo.signals, payload)
    ensures FirstRefused(e, tableB, rpdo, payload, 0) == |rpdo.signals|
  {
    EncodeSucceedsIff(d, tableA, tpdo);
    SameOffsets(tpdo.signals, rpdo.signals, |rpdo.signals|);
    DecodeSucceedsIff(e, tableB, rpdo, payload);
    assert forall j :: 0 <= j < |rpdo.signals| ==> Aligned(tpdo.signals[j]);
  }

  /**
   The receiver's entry k ends with the sender's value behind the last signal mapped to k, modulo
   256^width, and is untouched when no signal is mapped to it.
   */
  lemma Delivered(d: Dictionary, tableA: PdoTable, tpdo: Pdo, payload: seq<u8>,
                  e: Dictionary, tableB: PdoTable, rpdo: Pdo, k: ObjectKey)
    requires Payload(d, tableA, tpdo) == Ok(payload)
    requires RequirePdo(tableB, Receive, rpdo.number) == Some(rpdo)
    requires SameWidths(tpdo.signals, rpdo.signals) && Receptive(e, rpdo) && k in e
    ensures FitsWord(rpdo.signals, payload)
    ensures FirstRefused(e, tableB, rpdo, payload, 0) == |rpdo.signals|
    ensures var j := LastMapped(tableB, rpdo.number, k, |rpdo.signals|);
            var after := Applied(e, tableB, rpdo, payload, |rpdo.signals|)[k];
            if j < 0 then after == e[k]
            else
              && Readable(d, tableA, tpdo, j).Ok?
              && var v := Readable(d, tableA, tpdo, j).value % Pow2(8 * Width(rpdo.signals[j]));
                 v < 0x1_0000_0000_0000_0000 && after == e[k].(value := Unsigned(v))
  {
    DeliveryAccepted(d, tableA, tpdo, payload, e, tableB, rpdo);
    AppliedAt(e, tableB, rpdo, payload, |rpdo.signals|, k);
    var j := LastMapped(tableB, rpdo.number, k, |rpdo.signals|);
    if j >= 0 {
      SentSlice(d, tableA, tpdo, rpdo.signals, payload, j);
    }
  }

  predicate DistinctKeys(signals: seq<Signal>) {
    forall i, j :: 0 <= i < j < |signals| ==> signals[i].key != signals[j].key
  }

  /** What arrives of a sent value in a slice of so many bits, by the kind of value sent. */
  ghost predicate Arrives(sent: Value, bits: nat, got: Value) {
    && got.Unsigned?
    && match sent
       case Unsigned(u) => got.unsigned == u % Pow2(bits)
       case Signed(i) => i >= 0 && got.unsigned == i % Pow2(bits)
       case Flag(b) => got.unsigned == (if b then 1 else 0) % Pow2(bits)
       case _ => false
  }

  /** The entry signal j of the RPDO is mapped to holds what arrives of the entry behind signal j of the TPDO. */
  ghost predicate Carried(d: Dictionary, tpdo: Pdo, rpdo: Pdo, e: Dictionary, after: Dictionary, j: nat)
    requires j < |tpdo.signals| && j < |rpdo.signals|
  {
    var from, to := tpdo.signals[j].key, rpdo.signals[j].key;
    && from in d && to in e && to in after
    && after[to] == e[to].(value := after[to].value)
    && Arrives(d[from].value, rpdo.signals[j].bitLength, after[to].value)
  }

  predicate Unmapped(rpdo: Pdo, k: ObjectKey) {
    forall j :: 0 <= j < |rpdo.signals| ==> rpdo.signals[j].key != k
  }

  /** The receiver's dictionary went from e to after: every mapped entry carries its value, no other entry changed. */
  ghost predicate Transferred(d: Dictionary, tpdo: Pdo, rpdo: Pdo, e: Dictionary, after: Dictionary)
    requires |tpdo.signals| == |rpdo.signals|
  {
    && after.Keys == e.Keys
    && (forall j: nat :: j < |rpdo.signals| ==> Carried(d, tpdo, rpdo, e, after, j))
    && (forall k :: k in e && Unmapped(rpdo, k) ==> after[k] == e[k])
  }

  /** A value that fits its slice arrives unchanged. */
  lemma FittingValueArrives(sent: Value, bits: nat, got: Value, n: nat)
    requires Arrives(sent, bits, got) && StandsFor(sent, n) && n < Pow2(bits)
    ensures got.unsigned == n
  {
    DivModUnique(n, Pow2(bits), 0, n);
  }

  /** An identifier outside SYNC, emergencies and heartbeats, cut to 11 bits. */
  predicate IsPdoId(cobId: u32) {
    var id := cobId % 0x800;
    !(0x80 <= id < 0x100) && !(0x700 <= id < 0x780)
  }

  /** Every mapped entry exists, is not read-only or constant, and is of an unsigned or the unknown type. */
  predicate TakesNumbers(d: Dictionary, rpdo: Pdo) {
    forall i :: 0 <= i < |rpdo.signals| ==>
      var k := rpdo.signals[i].key;
      && k in d && !d[k].access.ReadOnly? && !d[k].access.Constant?
      && match d[k].dataType
         case Unsigned8 | Unsigned16 | Unsigned32 | Unsigned64 | UnknownType => true
         case _ => false
  }

  lemma TakesNumbersIsReceptive(d: Dictionary, rpdo: Pdo)
    ensures TakesNumbers(d, rpdo) <==> Receptive(d, rpdo)
  {
    forall i | 0 <= i < |rpdo.signals|
      ensures var k := rpdo.signals[i].key;
              Accepts(d, k, Unsigned(0)) <==>
              && k in d && !d[k].access.ReadOnly? && !d[k].access.Constant?
              && match d[k].dataType
                 case Unsigned8 | Unsigned16 | Unsigned32 | Unsigned64 | UnknownType => true
                 case _ => false
    {
      AcceptedIff(d, rpdo.signals[i].key, Unsigned(0));
    }
  }

  /** The RPDO of node b that a frame with the given COB-ID reaches matches the TPDO signal by signal. */
  ghost predicate Matches(tpdo: Pdo, b: SocketCanTransport)
    reads b, b.simulator
  {
    var cobId := tpdo.communication.cobId;
    && IsPdoId(cobId) && cobId % 0x800 in b.rpdoByCobId
    && SameWidths(tpdo.signals, b.rpdoByCobId[cobId % 0x800].signals)
    && TakesNumbers(b.simulator.dictionary, b.rpdoByCobId[cobId % 0x800])
    && DistinctKeys(b.rpdoByCobId[cobId % 0x800].signals)
  }

  /**
   Node a sends a TPDO and node b receives the frame written, if one was. With equal widths and
   distinct receptive entries, every mapped entry of b then holds a's value modulo 256^width and no
   other entry of b changes; without a frame nothing of b changes, and a says why.
   */
  method Deliver(a: SocketCanTransport, b: SocketCanTransport, number: u16) returns (r: Result<()>)
    requires a.Valid() && a.Coherent() && b.Valid() && b.Coherent() && a != b && a.simulator != b.simulator
    requires number in a.tpdoByNumber ==> Matches(a.tpdoByNumber[number], b)
    modifies a`writes, a`attempts, b`writes, b`attempts, b.simulator`dictionary
    ensures match old(a.NextFrame(number))
            case Err(e) => r == Err(e)
            case Ok(frame) => if a.socketOpen then r == Ok(()) || r == Err(WriteFailed) else r == Err(NotStarted)
    ensures r.Err? ==> b.simulator.dictionary == old(b.simulator.dictionary)
    ensures r.Ok? ==>
              && number in a.tpdoByNumber && old(Matches(a.tpdoByNumber[number], b))
              && var tpdo := a.tpdoByNumber[number];
                 Transferred(a.simulator.dictionary, tpdo, b.rpdoByCobId[tpdo.communication.cobId % 0x800],
                             old(b.simulator.dictionary), b.simulator.dictionary)
  {
    ghost var e := b.simulator.dictionary;
    ghost var sent;
    r, sent := a.SendTpdo(number, KeywordTpdo(number));
    if r.Err? {
      return;
    }
    var frame := a.writes[|a.writes| - 1].frame;
    ghost var tpdo := a.tpdoByNumber[number];
    SentFrame(tpdo.communication.cobId, frame.data[..frame.dlc]);
    ghost var rpdo := b.rpdoByCobId[frame.canId];
    TakesNumbersIsReceptive(e, rpdo);
    ghost var order, received := b.ReceiveFrame(frame.canId, frame.data, frame.dlc);
    DeliveredEverywhere(a.simulator.dictionary, a.simulator.pdoByKey, tpdo, frame.data[..frame.dlc],
                        e, b.simulator.pdoByKey, rpdo);
  }

  /** The identifier of a sent frame is what the receiver masks it to. */
  lemma SentFrame(cobId: u32, payload: seq<u8>)
    requires |payload| <= CAN_MAX_DATA_LEN
    ensures var canId := MakeFrame(cobId, payload).canId;
            canId == cobId % 0x800 && Mask(canId) == canId && (Classify(canId) == Process <==> IsPdoId(cobId))
  {
    MaskIsRemainder(cobId);
    MaskOfSmall(cobId % 0x800);
    ClassifyByRange(cobId % 0x800);
  }

  /**
   What SendTpdo puts on the wire, in numbers: the COB-ID modulo 2048, the length of all signals
   together, the base-256 digits of the integers the mapped entries stand for, and zeros behind them.
   */
  lemma FrameInNumbers(a: SocketCanTransport, number: u16, frame: Frame)
    requires a.Valid() && a.Coherent() && a.NextFrame(number) == Ok(frame)
    ensures number in a.tpdoByNumber && frame.canId == a.tpdoByNumber[number].communication.cobId % 0x800
    ensures var signals := a.tpdoByNumber[number].signals;
            |frame.data| == 8 && 8 * frame.dlc == BitsBefore(signals, |signals|) <= 64
    ensures forall i :: frame.dlc <= i < 8 ==> frame.data[i] == 0
    ensures var d, signals := a.simulator.dictionary, a.tpdoByNumber[number].signals;
            forall j: nat, i: nat, n ::
              (j < |signals| && 8 * i < signals[j].bitLength
               && signals[j].key in d && StandsFor(d[signals[j].key].value, n)) ==>
                HasDigit(frame.data, BitsBefore(signals, j), i, n)
  {
    var d, table, tpdo := a.simulator.dictionary, a.simulator.pdoByKey, a.tpdoByNumber[number];
    var payload := frame.data[..frame.dlc];
    MaskIsRemainder(tpdo.communication.cobId);
    EncodedLength(d, table, tpdo);
    forall j: nat, i: nat, n | j < |tpdo.signals| && 8 * i < tpdo.signals[j].bitLength
                               && tpdo.signals[j].key in d && StandsFor(d[tpdo.signals[j].key].value, n)
      ensures HasDigit(frame.data, BitsBefore(tpdo.signals, j), i, n)
    {
      EncodedByte(d, table, tpdo, payload, j, i, n);
      ByteOf(frame.data, frame.dlc, Offset(tpdo.signals, j), i, n);
    }
  }

  /** Byte i behind so many bits of the data is the i-th base-256 digit of n. */
  ghost predicate HasDigit(data: seq<u8>, bits: nat, i: nat, n: int) {
    bits % 8 == 0 && bits / 8 + i < |data| && data[bits / 8 + i] == n / Pow2(8 * i) % 256
  }

  lemma DeliveredEverywhere(d: Dictionary, tableA: PdoTable, tpdo: Pdo, payload: seq<u8>,
                            e: Dictionary, tableB: PdoTable, rpdo: Pdo)
    requires Payload(d, tableA, tpdo) == Ok(payload) && RequirePdo(tableA, Transmit, tpdo.number) == Some(tpdo)
    requires RequirePdo(tableB, Receive, rpdo.number) == Some(rpdo)
    requires SameWidths(tpdo.signals, rpdo.signals) && Receptive(e, rpdo) && DistinctKeys(rpdo.signals)
    ensures FitsWord(rpdo.signals, payload)
    ensures FirstRefused(e, tableB, rpdo, payload, 0) == |rpdo.signals|
    ensures Transferred(d, tpdo, rpdo, e, Applied(e, tableB, rpdo, payload, |rpdo.signals|))
  {
    DeliveryAccepted(d, tableA, tpdo, payload, e, tableB, rpdo);
    var after := Applied(e, tableB, rpdo, payload, |rpdo.signals|);
    assert after.Keys == e.Keys by {
      AppliedShape(e, tableB, rpdo, payload, |rpdo.signals|);
    }
    forall j: nat | j < |rpdo.signals|
      ensures Carried(d, tpdo, rpdo, e, after, j)
    {
      DeliveredTo(d, tableA, tpdo, payload, e, tableB, rpdo, j);
    }
    forall k | k in e && Unmapped(rpdo, k)
      ensures after[k] == e[k]
    {
      UnmappedUntouched(d, tableA, tpdo, payload, e, tableB, rpdo, k);
    }
  }

  lemma UnmappedUntouched(d: Dictionary, tableA: PdoTable, tpdo: Pdo, payload: seq<u8>,
                          e: Dictionary, tableB: PdoTable, rpdo: Pdo, k: ObjectKey)
    requires Payload(d, tableA, tpdo) == Ok(payload)
    requires RequirePdo(tableB, Receive, rpdo.number) == Some(rpdo)
    requires SameWidths(tpdo.signals, rpdo.signals) && Receptive(e, rpdo) && k in e && Unmapped(rpdo, k)
    ensures FitsWord(rpdo.signals, payload)
    ensures FirstRefused(e, tableB, rpdo, payload, 0) == |rpdo.signals|
    ensures var after := Applied(e, tableB, rpdo, payload, |rpdo.signals|); k in after && after[k] == e[k]
  {
    Delivered(d, tableA, tpdo, payload, e, tableB, rpdo, k);
    AppliedShape(e, tableB, rpdo, payload, |rpdo.signals|);
  }


  lemma DeliveredTo(d: Dictionary, tableA: PdoTable, tpdo: Pdo, payload: seq<u8>,
                    e: Dictionary, tableB: PdoTable, rpdo: Pdo, j: nat)
    requires Payload(d, tableA, tpdo) == Ok(payload) && RequirePdo(tableA, Transmit, tpdo.number) == Some(tpdo)
    requires RequirePdo(tableB, Receive, rpdo.number) == Some(rpdo)
    requires SameWidths(tpdo.signals, rpdo.signals) && Receptive(e, rpdo) && DistinctKeys(rpdo.signals)
    requires j < |rpdo.signals|
    ensures FitsWord(rpdo.signals, payload)
    ensures FirstRefused(e, tableB, rpdo, payload, 0) == |rpdo.signals|
    ensures Carried(d, tpdo, rpdo, e, Applied(e, tableB, rpdo, payload, |rpdo.signals|), j)
  {
    var k := rpdo.signals[j].key;
    assert Accepts(e, k, Unsigned(0));
    Delivered(d, tableA, tpdo, payload, e, tableB, rpdo, k);
    LastOfDistinct(tableB, rpdo, |rpdo.signals|, j);
    ReadableWhenCoherent(d, tableA, tpdo, j);
    AlignedWhenEncoded(d, tableA, tpdo);
    var n, bits := Readable(d, tableA, tpdo, j).value, 8 * Width(rpdo.signals[j]);
    assert bits == rpdo.signals[j].bitLength;
    ArrivesAsRemainder(d[tpdo.signals[j].key].value, n, bits);
  }

  lemma LastOfDistinct(table: PdoTable, rpdo: Pdo, m: nat, j: nat)
    requires RequirePdo(table, Receive, rpdo.number) == Some(rpdo) && DistinctKeys(rpdo.signals)
    requires j < m <= |rpdo.signals|
    ensures LastMapped(table, rpdo.number, rpdo.signals[j].key, m) == j
  {
    var k := rpdo.signals[j].key;
    var last := LastMapped(table, rpdo.number, k, m);
    assert MappedKey(table, Receive, rpdo.number, j) == Ok(k);
    assert last >= j && rpdo.signals[last].key == k;
  }

  lemma ArrivesAsRemainder(sent: Value, n: u64, bits: nat)
    requires StandsFor(sent, n)
    ensures n % Pow2(bits) < 0x1_0000_0000_0000_0000 && Arrives(sent, bits, Unsigned(n % Pow2(bits)))
  {
    RemainderAtMost(n, Pow2(bits));
  }

  lemma RemainderAtMost(n: nat, p: nat)
    requires p > 0
    ensures 0 <= n % p <= n
  {
    if n < p {
      DivModUnique(n, p, 0, n);
    }
  }

  // ----- Receiving, in numbers -----

  /** All signals are whole bytes, and exactly the first m of them fit one after the other in so many payload bytes. */
  ghost predicate FitUpTo(rpdo: Pdo, dlc: nat, m: nat) {
    && m <= |rpdo.signals|
    && (forall j :: 0 <= j < |rpdo.signals| ==> rpdo.signals[j].bitLength % 8 == 0)
    && BitsBefore(rpdo.signals, m) <= 8 * dlc
    && (m < |rpdo.signals| ==> BitsBefore(rpdo.signals, m + 1) > 8 * dlc)
  }

  /** The entry behind signal j holds the unsigned number whose base-256 digits are the signal's bytes. */
  ghost predicate Unpacked(rpdo: Pdo, data: seq<u8>, e: Dictionary, after: Dictionary, j: nat)
    requires j < |rpdo.signals|
  {
    var s := rpdo.signals[j];
    && s.key in e && s.key in after && after[s.key].value.Unsigned?
    && after[s.key] == e[s.key].(value := after[s.key].value)
    && after[s.key].value.unsigned < Pow2(s.bitLength)
    && forall i: nat :: 8 * i < s.bitLength ==>
         HasDigit(data, BitsBefore(rpdo.signals, j), i, after[s.key].value.unsigned)
  }

  /**
   A received frame for an RPDO whose signals are mapped to distinct entries that take numbers: the entries
   behind the signals that fit the frame hold the numbers their bytes spell, and no other entry changes.
   */
  method ReceivePdo(b: SocketCanTransport, rawId: u32, data: seq<u8>, dlc: nat, ghost m: nat)
    requires b.Valid() && b.Coherent() && |data| == 8 && dlc <= 8
    requires IsPdoId(rawId) && rawId % 0x800 in b.rpdoByCobId
    requires var rpdo := b.rpdoByCobId[rawId % 0x800];
             FitUpTo(rpdo, dlc, m) && TakesNumbers(b.simulator.dictionary, rpdo) && DistinctKeys(rpdo.signals)
    modifies b`writes, b`attempts, b.simulator`dictionary
    ensures var rpdo, e, after := b.rpdoByCobId[rawId % 0x800], old(b.simulator.dictionary), b.simulator.dictionary;
            && after.Keys == e.Keys
            && (forall j: nat :: j < m ==> Unpacked(rpdo, data, e, after, j))
            && (forall k :: k in e && UnmappedUpTo(rpdo, m, k) ==> after[k] == e[k])
    ensures b.writes == old(b.writes)
  {
    ghost var rpdo, e, table := b.rpdoByCobId[rawId % 0x800], b.simulator.dictionary, b.simulator.pdoByKey;
    MaskIsRemainder(rawId);
    ClassifyByRange(Mask(rawId));
    TakesNumbersIsReceptive(e, rpdo);
    AcceptedUpTo(e, table, rpdo, data[..dlc], m);
    ghost var order, sent := b.ReceiveFrame(rawId, data, dlc);
    forall j: nat | j < m
      ensures Unpacked(rpdo, data, e, b.simulator.dictionary, j)
    {
      UnpackedAt(rpdo, data, dlc, e, table, m, j);
    }
    forall k | k in e && UnmappedUpTo(rpdo, m, k)
      ensures b.simulator.dictionary[k] == e[k]
    {
      AppliedAt(e, table, rpdo, data[..dlc], m, k);
    }
    AppliedShape(e, table, rpdo, data[..dlc], m);
  }

  /** None of the first m signals is mapped to k. */
  predicate UnmappedUpTo(rpdo: Pdo, m: nat, k: ObjectKey)
    requires m <= |rpdo.signals|
  {
    forall j :: 0 <= j < m ==> rpdo.signals[j].key != k
  }

  lemma AcceptedUpTo(e: Dictionary, table: PdoTable, rpdo: Pdo, payload: seq<u8>, m: nat)
    requires RequirePdo(table, Receive, rpdo.number) == Some(rpdo) && |payload| <= 8
    requires FitUpTo(rpdo, |payload|, m) && Receptive(e, rpdo)
    ensures FitsWord(rpdo.signals, payload) && StepsAccepted(e, table, rpdo, payload, m)
    ensures FirstRefused(e, table, rpdo, payload, 0) == m
    ensures Offset(rpdo.signals, m) <= |payload|
  {
    BitsAreOffset(rpdo.signals, m);
    forall j | 0 <= j < m
      ensures StepError(e, table, rpdo, payload, j).None?
    {
      OffsetMonotone(rpdo.signals, j + 1, m);
      assert Accepts(e, rpdo.signals[j].key, Unsigned(0));
    }
    if m < |rpdo.signals| {
      BitsAreOffset(rpdo.signals, m + 1);
      assert StepError(e, table, rpdo, payload, m).Some?;
    }
  }

  lemma UnpackedAt(rpdo: Pdo, data: seq<u8>, dlc: nat, e: Dictionary, table: PdoTable, m: nat, j: nat)
    requires RequirePdo(table, Receive, rpdo.number) == Some(rpdo) && dlc <= 8 == |data|
    requires FitUpTo(rpdo, dlc, m) && j < m && Receptive(e, rpdo) && DistinctKeys(rpdo.signals)
    ensures FitsWord(rpdo.signals, data[..dlc]) && StepsAccepted(e, table, rpdo, data[..dlc], m)
    ensures Unpacked(rpdo, data, e, Applied(e, table, rpdo, data[..dlc], m), j)
  {
    var payload, s := data[..dlc], rpdo.signals[j];
    AcceptedUpTo(e, table, rpdo, payload, m);
    assert Accepts(e, s.key, Unsigned(0));
    AppliedAt(e, table, rpdo, payload, m, s.key);
    LastOfDistinct(table, rpdo, m, j);
    NumberAt(rpdo, data, dlc, m, j);
  }

  /** The number a slice spells. */
  lemma NumberAt(rpdo: Pdo, data: seq<u8>, dlc: nat, m: nat, j: nat)
    requires dlc <= 8 == |data| && FitUpTo(rpdo, dlc, m) && j < m
    ensures Offset(rpdo.signals, j + 1) <= dlc
    ensures SliceValue(rpdo.signals, data[..dlc], j) < Pow2(rpdo.signals[j].bitLength)
    ensures forall i: nat :: 8 * i < rpdo.signals[j].bitLength ==>
              HasDigit(data, BitsBefore(rpdo.signals, j), i, SliceValue(rpdo.signals, data[..dlc], j))
  {
    SliceStart(rpdo, dlc, m, j);
    SliceBound(rpdo.signals, data[..dlc], j);
    forall i: nat | 8 * i < rpdo.signals[j].bitLength
      ensures HasDigit(data, BitsBefore(rpdo.signals, j), i, SliceValue(rpdo.signals, data[..dlc], j))
    {
      DigitBehind(rpdo.signals, data, dlc, j, i);
    }
  }

  lemma SliceStart(rpdo: Pdo, dlc: nat, m: nat, j: nat)
    requires FitUpTo(rpdo, dlc, m) && j < m
    ensures BitsBefore(rpdo.signals, j) == 8 * Offset(rpdo.signals, j)
    ensures 8 * Width(rpdo.signals[j]) == rpdo.signals[j].bitLength
    ensures Offset(rpdo.signals, j + 1) == Offset(rpdo.signals, j) + Width(rpdo.signals[j]) <= dlc
  {
    BitsAreOffset(rpdo.signals, m);
    BitsAreOffset(rpdo.signals, j);
    OffsetMonotone(rpdo.signals, j + 1, m);
  }

  lemma DigitBehind(signals: seq<Signal>, data: seq<u8>, dlc: nat, j: nat, i: nat)
    requires j < |signals| && dlc <= |data| && i < Width(signals[j]) && Offset(signals, j + 1) <= dlc
    ensures HasDigit(data, 8 * Offset(signals, j), i, SliceValue(signals, data[..dlc], j))
  {
    SliceDigits(signals, data[..dlc], j, i);
    ByteOf(data, dlc, Offset(signals, j), i, SliceValue(signals, data[..dlc], j));
  }

  lemma ByteOf(data: seq<u8>, dlc: nat, offset: nat, i: nat, n: int)
    requires offset + i < dlc <= |data| && n / Pow2(8 * i) % 256 == data[..dlc][offset + i]
    ensures HasDigit(data, 8 * offset, i, n)
  {
  }

  /** The entries whose type an override may leave at odds with the stored number. */
  predicate OverridesFitTypes(d: Dictionary, config: SimulatorConfig) {
    forall k :: k in d && Effective(config, k).Some? ==> IsUnsignedType(d[k].dataType) || d[k].dataType.UnknownType?
  }

  /**
   EDS text, then configuration. It succeeds exactly when every default is valid for the parsed
   dictionary. Then every entry sits under its own key, and every value fits its declared type exactly
   when overrides hit only unsigned or unknown-typed entries; a value is the override where one is
   set, otherwise that of the last default naming the entry, otherwise the parsed one.
   */
  method LoadDictionary(text: string, nodeId: u8, config: SimulatorConfig, reals: RealText)
    returns (r: Result<Dictionary>, ghost parsed: Dictionary, ghost order: seq<string>)
    ensures parsed == EdsParser.DictionaryOf(EdsText.Sections(text), nodeId, reals)
    ensures r.Ok? <==> AllValid(parsed, config.odDefaults, reals)
    ensures forall t :: t in order ==> t in config.odDefaults
    ensures r.Err? ==> exists t :: t in order && DefaultFor(parsed, t, config.odDefaults[t], reals) == Err(r.error)
    ensures r.Ok? ==> Enumerates(order, config.odDefaults.Keys)
                      && Outcome(parsed, config, reals, order) == Some(r.value)
    ensures r.Ok? ==>
              && KeysAgree(r.value)
              && (WellTyped(r.value) <==> OverridesFitTypes(parsed, config))
              && (forall k :: k in r.value <==> k in parsed || Effective(config, k).Some?)
              && (forall k :: k in parsed ==> LoadedEntry(parsed, config, reals, order, k, r.value[k]))
  {
    var fromText, warnings := EdsParser.ParseText(text, nodeId, reals);
    parsed := fromText;
    var applied, d;
    applied, d, order := ApplyToDictionary(config, fromText, reals);
    RefusedByOne(parsed, config.odDefaults, order, reals);
    if applied.Err? {
      return Err(applied.error), parsed, order;
    }
    EdsParser.ParsedIsTyped(EdsText.Sections(text), nodeId, reals);
    DefaultsKeepTyping(parsed, config.odDefaults, order, reals);
    ghost var defaulted := AfterDefaults(parsed, config.odDefaults, order, reals).0;
    OverridesKeepTypingIff(defaulted, config, d);
    ConfiguredUnique(defaulted, config, d, Configured(defaulted, config));
    ConfiguredEntries(parsed, config, reals, order, d);
    return Ok(d), parsed, order;
  }

  /** The entry that loading leaves at k: only its value may differ from the parsed one. */
  ghost predicate LoadedEntry(parsed: Dictionary, config: SimulatorConfig, reals: RealText, order: seq<string>,
                              k: ObjectKey, entry: OdEntry)
    requires k in parsed && forall t :: t in order ==> t in config.odDefaults
  {
    var last := LastWith(order, NamedKey, k);
    && entry == parsed[k].(value := entry.value)
    && match Effective(config, k)
       case Some(v) => entry.value == Unsigned(v)
       case None =>
         if last < 0 then entry == parsed[k]
         else DefaultFor(parsed, order[last], config.odDefaults[order[last]], reals) == Ok((k, entry.value))
  }

  lemma ConfiguredEntries(parsed: Dictionary, config: SimulatorConfig, reals: RealText, order: seq<string>,
                          d: Dictionary)
    requires KeysAgree(parsed) && AllValid(parsed, config.odDefaults, reals)
    requires forall t :: t in order ==> t in config.odDefaults
    requires IsConfigured(AfterDefaults(parsed, config.odDefaults, order, reals).0, config, d)
    ensures OverridesFitTypes(parsed, config)
         == OverridesFitTypes(AfterDefaults(parsed, config.odDefaults, order, reals).0, config)
    ensures forall k :: k in d <==> k in parsed || Effective(config, k).Some?
    ensures forall k :: k in parsed ==> LoadedEntry(parsed, config, reals, order, k, d[k])
  {
    var defaulted := AfterDefaults(parsed, config.odDefaults, order, reals).0;
    forall k
      ensures k in d <==> k in parsed || Effective(config, k).Some?
    {
      assert Effective(config, k).Some? || Effective(config, k).None?;
    }
    forall k | k in parsed
      ensures k in d && LoadedEntry(parsed, config, reals, order, k, d[k])
    {
      ConfiguredEntry(parsed, config, reals, order, d, k);
    }
    forall k | k in parsed
      ensures defaulted[k].dataType == parsed[k].dataType
    {
    }
  }

  lemma ConfiguredEntry(parsed: Dictionary, config: SimulatorConfig, reals: RealText, order: seq<string>,
                        d: Dictionary, k: ObjectKey)
    requires KeysAgree(parsed) && AllValid(parsed, config.odDefaults, reals) && k in parsed
    requires forall t :: t in order ==> t in config.odDefaults
    requires IsConfigured(AfterDefaults(parsed, config.odDefaults, order, reals).0, config, d)
    ensures k in d && LoadedEntry(parsed, config, reals, order, k, d[k])
  {
    var defaulted := AfterDefaults(parsed, config.odDefaults, order, reals).0;
    assert Effective(config, k).Some? || Effective(config, k).None?;
    assert defaulted[k] == parsed[k].(value := defaulted[k].value);
    AfterDefaultsAt(parsed, config.odDefaults, order, reals, k);
    var last := LastWith(order, NamedKey, k);
    if last >= 0 {
      assert order[last] in order;
      ValidDefault(parsed, parsed, config.odDefaults, order[last], reals);
    }
  }

  /** The objects main creates from a configured dictionary, and what ties them together. */
  method Assemble(d: Dictionary, nodeId: u8, now: Time, reals: RealText)
    returns (pdos: seq<Pdo>, simulator: CanNodeSimulator, transport: SocketCanTransport, keywords: RobotKeywords)
    requires CountsTerminate(d)
    ensures pdos == BuiltPdos(d) && fresh(simulator) && fresh(transport) && fresh(keywords)
    ensures simulator.dictionary == d && simulator.pdoByKey == TableOf(pdos)
    ensures transport.simulator == simulator && transport.nodeId == nodeId && !transport.running
    ensures transport.Valid() && transport.NmtTracked() && transport.RoutesSeparate() && transport.Coherent()
    ensures transport.nmtLoaded.None? && transport.nmtState == 127
    ensures transport.nextHeartbeatDue == now + 1_000_000_000
    ensures forall n :: n in transport.tpdoByNumber && HasTimer(transport.tpdoByNumber[n]) ==>
              transport.nextAsyncDue[n] == now + transport.tpdoByNumber[n].communication.eventTimer * 1_000_000
    ensures keywords.simulator == simulator && keywords.pdos == pdos && keywords.reals == reals
    ensures forall p <- pdos ::
              && RequirePdo(simulator.pdoByKey, p.direction, p.number) == Some(p)
              && (p.direction.Transmit? ==> p.number in transport.tpdoByNumber && transport.tpdoByNumber[p.number] == p)
              && (p.direction.Receive? ==> p.communication.cobId % 0x800 in transport.rpdoByCobId)
    ensures forall direction, number ::
              FirstMatch(keywords.pdos, direction, number) == RequirePdo(simulator.pdoByKey, direction, number)
  {
    var built := Build(d);
    pdos := built.pdos;
    simulator := new CanNodeSimulator(d, pdos);
    transport := new SocketCanTransport(simulator, pdos, nodeId, now);
    keywords := new RobotKeywords(simulator, pdos, reals);
    BuiltContents(d);
    SharedListCoheres(pdos, transport);
    forall direction, number
      ensures FirstMatch(pdos, direction, number) == RequirePdo(simulator.pdoByKey, direction, number)
    {
      BuiltIndexesAgree(d, direction, number);
    }
    forall p | p in pdos
      ensures RequirePdo(simulator.pdoByKey, p.direction, p.number) == Some(p)
      ensures p.direction.Transmit? ==> p.number in transport.tpdoByNumber && transport.tpdoByNumber[p.number] == p
      ensures p.direction.Receive? ==> p.communication.cobId % 0x800 in transport.rpdoByCobId
    {
      IndexedWhereItIs(pdos, p);
    }
  }

  /** A definition of a duplicate-free list is what every index finds under its direction and number. */
  lemma IndexedWhereItIs(pdos: seq<Pdo>, p: Pdo)
    requires DistinctNumbers(pdos) && p in pdos
    ensures RequirePdo(TableOf(pdos), p.direction, p.number) == Some(p)
    ensures p.direction.Transmit? ==> p.number in LastWins(pdos, TpdoKey) && LastWins(pdos, TpdoKey)[p.number] == p
    ensures p.direction.Receive? ==> p.communication.cobId % 0x800 in LastWins(pdos, RpdoKey)
  {
    var i :| 0 <= i < |pdos| && pdos[i] == p;
    FirstMatchIs(pdos, p.direction, p.number, i);
    IndexesAgree(pdos, p.direction, p.number);
    MaskIsRemainder(p.communication.cobId);
    ReceiveLookup(pdos, p.communication.cobId % 0x800);
  }
}
