/** PDO payloads: little-endian slices of object-dictionary values, packed and unpacked in place. */
module PdoCodec {
  import opened Types
  import opened Bits
  import opened Model
  import opened Simulator

  const CAN_MAX_DATA_LEN := 8

  predicate Aligned(s: Signal) {
    s.bitLength % 8 == 0
  }

  function Width(s: Signal): nat {
    s.bitLength / 8
  }

  /** The number of payload bytes taken by the first j signals. */
  function Offset(signals: seq<Signal>, j: nat): nat
    requires j <= |signals|
  {
    if j == 0 then 0 else Offset(signals, j - 1) + Width(signals[j - 1])
  }

  lemma {:induction false} OffsetMonotone(signals: seq<Signal>, i: nat, j: nat)
    requires i <= j <= |signals|
    ensures Offset(signals, i) <= Offset(signals, j)
  {
    if i < j {
      OffsetMonotone(signals, i, j - 1);
    }
  }

  // ----- Encoding -----

  /** The integer encoded for signal j: read through the simulator's table, not through the PDO passed in. */
  function Readable(d: Dictionary, table: PdoTable, pdo: Pdo, j: nat): Result<u64> {
    match MappedValue(d, table, Transmit, pdo.number, j)
    case Err(e) => Err(e)
    case Ok(v) =>
      match ValueToU64(v)
      case Some(u) => Ok(u)
      case None => Err(NotInteger)
  }

  /** The bytes pushed for the first j signals, or the first failure among them. */
  function Encoded(d: Dictionary, table: PdoTable, pdo: Pdo, j: nat): (r: Result<seq<u8>>)
    requires j <= |pdo.signals|
    ensures r.Ok? ==> |r.value| == Offset(pdo.signals, j)
  {
    if j == 0 then Ok([])
    else
      match Encoded(d, table, pdo, j - 1)
      case Err(e) => Err(e)
      case Ok(bytes) =>
        var signal := pdo.signals[j - 1];
        if !Aligned(signal) then Err(NotByteAligned)
        else
          match Readable(d, table, pdo, j - 1)
          case Err(e) => Err(e)
          case Ok(raw) => Ok(bytes + LeBytes(raw, Width(signal)))
  }

  /** The payload of a PDO. */
  function Payload(d: Dictionary, table: PdoTable, pdo: Pdo): Result<seq<u8>> {
    match Encoded(d, table, pdo, |pdo.signals|)
    case Err(e) => Err(e)
    case Ok(bytes) => if |bytes| > CAN_MAX_DATA_LEN then Err(PayloadTooLong) else Ok(bytes)
  }

  /** A failure among the first signals stays the result. */
  lemma {:induction false} EncodedFailureStays(d: Dictionary, table: PdoTable, pdo: Pdo, j: nat, n: nat)
    requires j <= n <= |pdo.signals| && Encoded(d, table, pdo, j).Err?
    ensures Encoded(d, table, pdo, n) == Encoded(d, table, pdo, j)
  {
    if j < n {
      EncodedFailureStays(d, table, pdo, j, n - 1);
    }
  }

  /** C++ leaves a shift of 64 bits or more undefined; the model lets such a byte be anything. */
  method ShiftedByte(raw: u64, i: nat) returns (b: u8)
    ensures i < 8 ==> b == ByteAt(raw, i)
  {
    if i < 8 {
      b := ByteAt(raw, i);
    } else {
      b := *;
    }
  }

  /** The inner loop of the encoder: the low bytes of a value, least significant first. */
  method PushBytes(payload: seq<u8>, raw: u64, width: nat) returns (longer: seq<u8>)
    ensures |longer| == |payload| + width
    ensures width <= 8 ==> longer == payload + LeBytes(raw, width)
  {
    longer := payload;
    for i := 0 to width
      invariant |longer| == |payload| + i
      invariant i <= 8 ==> longer == payload + LeBytes(raw, i)
    {
      if i < 8 {
        LeBytesNext(raw, i);
      }
      var b := ShiftedByte(raw, i);
      longer := longer + [b];
    }
  }

  method EncodePdoPayload(pdo: Pdo, simulator: CanNodeSimulator) returns (r: Result<seq<u8>>)
    ensures r == Payload(simulator.dictionary, simulator.pdoByKey, pdo)
  {
    ghost var d, table := simulator.dictionary, simulator.pdoByKey;
    var payload: seq<u8> := [];
    for j := 0 to |pdo.signals|
      invariant Encoded(d, table, pdo, j).Ok?
      invariant |payload| == Offset(pdo.signals, j)
      invariant |payload| <= CAN_MAX_DATA_LEN ==> Encoded(d, table, pdo, j) == Ok(payload)
    {
      if Encoded(d, table, pdo, j + 1).Err? {
        EncodedFailureStays(d, table, pdo, j + 1, |pdo.signals|);
      }
      var signal := pdo.signals[j];
      if !Aligned(signal) {
        return Err(NotByteAligned);
      }
      var value :- simulator.ReadPdoSignal(Transmit, pdo.number, j);
      var raw := ValueToU64(value);
      if raw.None? {
        return Err(NotInteger);
      }
      payload := PushBytes(payload, raw.value, Width(signal));
    }
    if |payload| > CAN_MAX_DATA_LEN {
      return Err(PayloadTooLong);
    }
    return Ok(payload);
  }

  /** Encoding succeeds exactly when every signal is byte-aligned and integer-readable and the total fits a frame. */
  lemma {:induction false} EncodedIff(d: Dictionary, table: PdoTable, pdo: Pdo, n: nat)
    requires n <= |pdo.signals|
    ensures Encoded(d, table, pdo, n).Ok? <==>
            forall j :: 0 <= j < n ==> Aligned(pdo.signals[j]) && Readable(d, table, pdo, j).Ok?
  {
    if n > 0 {
      EncodedIff(d, table, pdo, n - 1);
    }
  }

  lemma EncodeSucceedsIff(d: Dictionary, table: PdoTable, pdo: Pdo)
    ensures Payload(d, table, pdo).Ok? <==>
            && (forall j :: 0 <= j < |pdo.signals| ==>
                  Aligned(pdo.signals[j]) && Readable(d, table, pdo, j).Ok?)
            && Offset(pdo.signals, |pdo.signals|) <= 8
  {
    EncodedIff(d, table, pdo, |pdo.signals|);
  }

  /** With the PDO in the simulator's table, readable means a mapped non-negative integer or boolean. */
  lemma ReadableWhenCoherent(d: Dictionary, table: PdoTable, pdo: Pdo, j: nat)
    requires RequirePdo(table, Transmit, pdo.number) == Some(pdo) && j < |pdo.signals|
    ensures Readable(d, table, pdo, j).Ok? <==> HoldsInteger(d, pdo.signals[j].key)
    ensures Readable(d, table, pdo, j).Ok? ==> StandsFor(d[pdo.signals[j].key].value, Readable(d, table, pdo, j).value)
  {
    var k := pdo.signals[j].key;
    if k in d {
      ReadAsInteger(d[k].value);
    }
  }

  /**
   Byte i of slice j is the i-th base-256 digit of the integer the mapped entry stands for, and the
   slice starts behind the whole bytes of the signals before it.
   */
  lemma EncodedByte(d: Dictionary, table: PdoTable, pdo: Pdo, payload: seq<u8>, j: nat, i: nat, n: int)
    requires RequirePdo(table, Transmit, pdo.number) == Some(pdo)
    requires Payload(d, table, pdo) == Ok(payload) && j < |pdo.signals| && 8 * i < pdo.signals[j].bitLength
    requires pdo.signals[j].key in d && StandsFor(d[pdo.signals[j].key].value, n)
    ensures BitsBefore(pdo.signals, j) == 8 * Offset(pdo.signals, j) && Offset(pdo.signals, j) + i < |payload|
    ensures payload[Offset(pdo.signals, j) + i] == n / Pow2(8 * i) % 256
  {
    AlignedWhenEncoded(d, table, pdo);
    BitsAreOffset(pdo.signals, j);
    EncodedDigit(d, table, pdo, payload, j, i, n);
  }

  lemma EncodedDigit(d: Dictionary, table: PdoTable, pdo: Pdo, payload: seq<u8>, j: nat, i: nat, n: int)
    requires RequirePdo(table, Transmit, pdo.number) == Some(pdo)
    requires Encoded(d, table, pdo, |pdo.signals|) == Ok(payload) && j < |pdo.signals| && i < Width(pdo.signals[j])
    requires pdo.signals[j].key in d && StandsFor(d[pdo.signals[j].key].value, n)
    ensures Offset(pdo.signals, j) + i < |payload|
    ensures payload[Offset(pdo.signals, j) + i] == n / Pow2(8 * i) % 256
  {
    SliceByte(d, table, pdo, payload, j, i);
    ReadableWhenCoherent(d, table, pdo, j);
    LeBytesAt(n, Width(pdo.signals[j]), i);
  }

  lemma SliceByte(d: Dictionary, table: PdoTable, pdo: Pdo, payload: seq<u8>, j: nat, i: nat)
    requires Encoded(d, table, pdo, |pdo.signals|) == Ok(payload) && j < |pdo.signals| && i < Width(pdo.signals[j])
    ensures Readable(d, table, pdo, j).Ok? && Offset(pdo.signals, j) + i < |payload|
    ensures payload[Offset(pdo.signals, j) + i] == LeBytes(Readable(d, table, pdo, j).value, Width(pdo.signals[j]))[i]
  {
    EncodedSlice(d, table, pdo, |pdo.signals|, j);
    SliceEnd(pdo.signals, j);
    ByteOfSlice(payload, Offset(pdo.signals, j), Offset(pdo.signals, j + 1), i);
  }

  lemma SliceEnd(signals: seq<Signal>, j: nat)
    requires j < |signals|
    ensures Offset(signals, j + 1) == Offset(signals, j) + Width(signals[j])
  {
  }

  lemma ByteOfSlice(s: seq<u8>, lo: nat, hi: nat, i: nat)
    requires lo + i < hi <= |s|
    ensures s[lo..hi][i] == s[lo + i]
  {
  }

  lemma AlignedWhenEncoded(d: Dictionary, table: PdoTable, pdo: Pdo)
    requires Payload(d, table, pdo).Ok?
    ensures forall s :: 0 <= s < |pdo.signals| ==> pdo.signals[s].bitLength % 8 == 0
  {
    EncodeSucceedsIff(d, table, pdo);
    forall s | 0 <= s < |pdo.signals|
      ensures pdo.signals[s].bitLength % 8 == 0
    {
      assert Aligned(pdo.signals[s]);
    }
  }

  /** The payload is as long as all signals together, and at most eight bytes. */
  lemma EncodedLength(d: Dictionary, table: PdoTable, pdo: Pdo)
    requires Payload(d, table, pdo).Ok?
    ensures 8 * |Payload(d, table, pdo).value| == BitsBefore(pdo.signals, |pdo.signals|) <= 64
  {
    EncodeSucceedsIff(d, table, pdo);
    AlignedWhenEncoded(d, table, pdo);
    BitsAreOffset(pdo.signals, |pdo.signals|);
  }

  /**
   A PDO in the simulator's table encodes exactly when all its signals are whole bytes, at most eight
   together, each mapped to an existing entry with an unsigned, non-negative signed or boolean value.
   */
  lemma EncodesIff(d: Dictionary, table: PdoTable, pdo: Pdo)
    requires RequirePdo(table, Transmit, pdo.number) == Some(pdo)
    ensures Payload(d, table, pdo).Ok? <==>
            && BitsBefore(pdo.signals, |pdo.signals|) <= 64
            && (forall j :: 0 <= j < |pdo.signals| ==> pdo.signals[j].bitLength % 8 == 0)
            && forall j :: 0 <= j < |pdo.signals| ==> HoldsInteger(d, pdo.signals[j].key)
  {
    EncodeSucceedsIff(d, table, pdo);
    forall j | 0 <= j < |pdo.signals|
      ensures Aligned(pdo.signals[j]) <==> pdo.signals[j].bitLength % 8 == 0
      ensures Readable(d, table, pdo, j).Ok? <==> HoldsInteger(d, pdo.signals[j].key)
    {
      ReadableWhenCoherent(d, table, pdo, j);
    }
    if forall j :: 0 <= j < |pdo.signals| ==> pdo.signals[j].bitLength % 8 == 0 {
      BitsAreOffset(pdo.signals, |pdo.signals|);
    }
  }

  ghost predicate HoldsInteger(d: Dictionary, k: ObjectKey) {
    k in d && match d[k].value
              case Unsigned(_) | Flag(_) => true
              case Signed(i) => i >= 0
              case _ => false
  }

  /** The number of bits of the first j signals. */
  ghost function BitsBefore(signals: seq<Signal>, j: nat): nat
    requires j <= |signals|
  {
    if j == 0 then 0 else BitsBefore(signals, j - 1) + signals[j - 1].bitLength
  }

  lemma {:induction false} BitsAreOffset(signals: seq<Signal>, j: nat)
    requires j <= |signals| && forall s :: 0 <= s < |signals| ==> signals[s].bitLength % 8 == 0
    ensures BitsBefore(signals, j) == 8 * Offset(signals, j)
  {
    if j > 0 {
      BitsAreOffset(signals, j - 1);
    }
  }

  /** Slice j of the payload is the little-endian form of the value of signal j. */
  lemma {:induction false} EncodedSlice(d: Dictionary, table: PdoTable, pdo: Pdo, n: nat, j: nat)
    requires j < n <= |pdo.signals| && Encoded(d, table, pdo, n).Ok?
    ensures Offset(pdo.signals, j) <= Offset(pdo.signals, j + 1) <= Offset(pdo.signals, n)
    ensures Readable(d, table, pdo, j).Ok?
    ensures Encoded(d, table, pdo, n).value[Offset(pdo.signals, j)..Offset(pdo.signals, j + 1)]
         == LeBytes(Readable(d, table, pdo, j).value, Width(pdo.signals[j]))
  {
    OffsetMonotone(pdo.signals, j + 1, n);
    var front, last := EncodedNext(d, table, pdo, n);
    var lo, hi := Offset(pdo.signals, j), Offset(pdo.signals, j + 1);
    if j < n - 1 {
      EncodedSlice(d, table, pdo, n - 1, j);
      OffsetMonotone(pdo.signals, j + 1, n - 1);
      assert (front + last)[lo..hi] == front[lo..hi];
    } else {
      assert (front + last)[|front|..|front| + |last|] == last;
    }
  }

  /** The n-th signal adds its bytes behind those of the first n-1. */
  lemma EncodedNext(d: Dictionary, table: PdoTable, pdo: Pdo, n: nat) returns (front: seq<u8>, last: seq<u8>)
    requires 0 < n <= |pdo.signals| && Encoded(d, table, pdo, n).Ok?
    ensures Encoded(d, table, pdo, n - 1) == Ok(front) && |front| == Offset(pdo.signals, n - 1)
    ensures Readable(d, table, pdo, n - 1).Ok?
    ensures last == LeBytes(Readable(d, table, pdo, n - 1).value, Width(pdo.signals[n - 1]))
    ensures Encoded(d, table, pdo, n).value == front + last && Offset(pdo.signals, n) == |front| + |last|
  {
    front := Encoded(d, table, pdo, n - 1).value;
    last := LeBytes(Readable(d, table, pdo, n - 1).value, Width(pdo.signals[n - 1]));
  }

  // ----- Decoding -----

  /** The value carried by slice j of a payload. */
  function SliceValue(signals: seq<Signal>, payload: seq<u8>, j: nat): nat
    requires j < |signals| && Offset(signals, j + 1) <= |payload|
  {
    LeValue(payload[Offset(signals, j)..Offset(signals, j + 1)])
  }

  /** No signal that fits the payload is wider than the 64-bit word it is gathered in. */
  predicate FitsWord(signals: seq<Signal>, payload: seq<u8>) {
    forall s :: s in signals ==> Width(s) <= 8 || Width(s) > |payload|
  }

  /** Why signal j is refused, judged on the dictionary's keys, types and access rights only. */
  function StepError(d: Dictionary, table: PdoTable, pdo: Pdo, payload: seq<u8>, j: nat): Option<Error>
    requires j < |pdo.signals|
  {
    if !Aligned(pdo.signals[j]) then Some(NotByteAligned)
    else if Offset(pdo.signals, j + 1) > |payload| then Some(PayloadTooShort)
    else
      match MappedKey(table, Receive, pdo.number, j)
      case Err(e) => Some(e)
      case Ok(k) => if Accepts(d, k, Unsigned(0)) then None else Some(RefusalError(d, k, Unsigned(0)))
  }

  predicate StepsAccepted(d: Dictionary, table: PdoTable, pdo: Pdo, payload: seq<u8>, n: nat)
    requires n <= |pdo.signals|
  {
    forall j :: 0 <= j < n ==> StepError(d, table, pdo, payload, j).None?
  }

  /** The first signal at or after j that is refused, or the number of signals. */
  function FirstRefused(d: Dictionary, table: PdoTable, pdo: Pdo, payload: seq<u8>, j: nat): (n: nat)
    requires j <= |pdo.signals|
    ensures j <= n <= |pdo.signals|
    ensures forall i :: j <= i < n ==> StepError(d, table, pdo, payload, i).None?
    ensures n < |pdo.signals| ==> StepError(d, table, pdo, payload, n).Some?
    decreases |pdo.signals| - j
  {
    if j == |pdo.signals| || StepError(d, table, pdo, payload, j).Some? then j
    else FirstRefused(d, table, pdo, payload, j + 1)
  }

  /** Two dictionaries that differ in values alone. */
  ghost predicate SameShape(d: Dictionary, e: Dictionary) {
    d.Keys == e.Keys && forall k :: k in d ==> e[k] == d[k].(value := e[k].value)
  }

  /** The dictionary after exactly the first n signal writes of a payload. */
  ghost function Applied(d: Dictionary, table: PdoTable, pdo: Pdo, payload: seq<u8>, n: nat): (e: Dictionary)
    requires n <= |pdo.signals| && FitsWord(pdo.signals, payload)
    requires StepsAccepted(d, table, pdo, payload, n)
    ensures e.Keys == d.Keys
  {
    if n == 0 then d
    else
      var before := Applied(d, table, pdo, payload, n - 1);
      assert StepError(d, table, pdo, payload, n - 1).None?;
      SliceFits(pdo.signals, payload, n - 1);
      Store(before, MappedKey(table, Receive, pdo.number, n - 1).value,
            Unsigned(SliceValue(pdo.signals, payload, n - 1)))
  }

  lemma SliceFits(signals: seq<Signal>, payload: seq<u8>, j: nat)
    requires j < |signals| && Offset(signals, j + 1) <= |payload| && FitsWord(signals, payload)
    ensures Width(signals[j]) <= 8
    ensures SliceValue(signals, payload, j) < 0x1_0000_0000_0000_0000
  {
    assert signals[j] in signals;
    WordBound(payload[Offset(signals, j)..Offset(signals, j + 1)]);
  }

  /** The inner loop of the decoder: bytes or-ed into a 64-bit word at increasing shifts. */
  method GatherBytes(payload: seq<u8>, cursor: nat, width: nat) returns (raw: u64)
    requires cursor + width <= |payload| && width <= 8
    ensures raw == LeValue(payload[cursor..cursor + width])
  {
    var word := 0;
    for i := 0 to width
      invariant word == LeValue(payload[cursor..cursor + i])
    {
      assert payload[cursor..cursor + i + 1] == payload[cursor..cursor + i] + [payload[cursor + i]];
      LeValueOr(payload[cursor..cursor + i], payload[cursor + i]);
      word := Or(word, U64(Shl(payload[cursor + i], 8 * i)));
    }
    WordBound(payload[cursor..cursor + width]);
    raw := word;
  }

  /** Acceptance of a write depends on the shape of the dictionary alone. */
  lemma AcceptsByShape(d: Dictionary, e: Dictionary, k: ObjectKey, u: u64)
    requires SameShape(d, e)
    ensures Accepts(e, k, Unsigned(u)) == Accepts(d, k, Unsigned(0))
    ensures !Accepts(e, k, Unsigned(u)) ==> RefusalError(e, k, Unsigned(u)) == RefusalError(d, k, Unsigned(0))
  {
    if k in d {
      assert e[k] == d[k].(value := e[k].value);
    }
  }

  /** The n-th accepted signal is one accepted write of its slice to its key, on top of the first n-1. */
  lemma AppliedNext(d: Dictionary, table: PdoTable, pdo: Pdo, payload: seq<u8>, n: nat)
    returns (before: Dictionary, k: ObjectKey, v: u64)
    requires 0 < n <= |pdo.signals| && FitsWord(pdo.signals, payload)
    requires StepsAccepted(d, table, pdo, payload, n)
    ensures MappedKey(table, Receive, pdo.number, n - 1) == Ok(k)
    ensures Offset(pdo.signals, n) <= |payload| && v == SliceValue(pdo.signals, payload, n - 1)
    ensures StepsAccepted(d, table, pdo, payload, n - 1) && before == Applied(d, table, pdo, payload, n - 1)
    ensures Accepts(d, k, Unsigned(v)) && k in before
    ensures Applied(d, table, pdo, payload, n) == Store(before, k, Unsigned(v))
  {
    before := Applied(d, table, pdo, payload, n - 1);
    assert StepError(d, table, pdo, payload, n - 1).None?;
    SliceFits(pdo.signals, payload, n - 1);
    k, v := MappedKey(table, Receive, pdo.number, n - 1).value, SliceValue(pdo.signals, payload, n - 1);
  }

  lemma {:induction false} AppliedEntry(d: Dictionary, table: PdoTable, pdo: Pdo, payload: seq<u8>, n: nat,
                                        k: ObjectKey)
    requires n <= |pdo.signals| && FitsWord(pdo.signals, payload)
    requires StepsAccepted(d, table, pdo, payload, n) && k in d
    ensures var e := Applied(d, table, pdo, payload, n)[k]; e == d[k].(value := e.value)
  {
    if n > 0 {
      var before, key, v := AppliedNext(d, table, pdo, payload, n);
      AppliedEntry(d, table, pdo, payload, n - 1, k);
    }
  }

  lemma AppliedShape(d: Dictionary, table: PdoTable, pdo: Pdo, payload: seq<u8>, n: nat)
    requires n <= |pdo.signals| && FitsWord(pdo.signals, payload)
    requires StepsAccepted(d, table, pdo, payload, n)
    ensures SameShape(d, Applied(d, table, pdo, payload, n))
  {
    forall k | k in d
      ensures var e := Applied(d, table, pdo, payload, n)[k]; e == d[k].(value := e.value)
    {
      AppliedEntry(d, table, pdo, payload, n, k);
    }
  }

  /** One accepted signal adds one write; the first refused signal ends the run of accepted ones. */
  lemma DecodeStep(d: Dictionary, table: PdoTable, pdo: Pdo, payload: seq<u8>, j: nat)
    requires j < |pdo.signals| && FitsWord(pdo.signals, payload)
    requires j <= FirstRefused(d, table, pdo, payload, 0)
    ensures StepsAccepted(d, table, pdo, payload, j)
    ensures match StepError(d, table, pdo, payload, j)
            case Some(e) => FirstRefused(d, table, pdo, payload, 0) == j
            case None =>
              && j < FirstRefused(d, table, pdo, payload, 0)
              && StepsAccepted(d, table, pdo, payload, j + 1)
              && SliceValue(pdo.signals, payload, j) < 0x1_0000_0000_0000_0000
              && var k := MappedKey(table, Receive, pdo.number, j).value;
                 && k in Applied(d, table, pdo, payload, j)
                 && Applied(d, table, pdo, payload, j + 1)
                    == Store(Applied(d, table, pdo, payload, j), k, Unsigned(SliceValue(pdo.signals, payload, j)))
  {
    if StepError(d, table, pdo, payload, j).None? {
      SliceFits(pdo.signals, payload, j);
    }
  }

  /** The body of the decoding loop for signal j, whose slice starts at the cursor. */
  method DecodeSignal(pdo: Pdo, payload: seq<u8>, j: nat, cursor: nat, simulator: CanNodeSimulator, ghost d: Dictionary)
    returns (r: Result<()>)
    requires FitsWord(pdo.signals, payload)
    requires j < |pdo.signals| && cursor == Offset(pdo.signals, j)
    requires SameShape(d, simulator.dictionary)
    modifies simulator`dictionary
    ensures match StepError(d, simulator.pdoByKey, pdo, payload, j)
            case Some(e) => r == Err(e) && simulator.dictionary == old(simulator.dictionary)
            case None =>
              && r == Ok(())
              && SliceValue(pdo.signals, payload, j) < 0x1_0000_0000_0000_0000
              && var k := MappedKey(simulator.pdoByKey, Receive, pdo.number, j).value;
                 && k in old(simulator.dictionary)
                 && simulator.dictionary
                    == Store(old(simulator.dictionary), k, Unsigned(SliceValue(pdo.signals, payload, j)))
  {
    var signal := pdo.signals[j];
    if !Aligned(signal) {
      return Err(NotByteAligned);
    }
    var width := Width(signal);
    if cursor + width > |payload| {
      return Err(PayloadTooShort);
    }
    SliceFits(pdo.signals, payload, j);
    var raw := GatherBytes(payload, cursor, width);
    ghost var key := MappedKey(simulator.pdoByKey, Receive, pdo.number, j);
    if key.Ok? {
      AcceptsByShape(d, simulator.dictionary, key.value, raw);
    }
    r := simulator.WritePdoSignal(Receive, pdo.number, j, Unsigned(raw));
  }

  /** One more signal of a decoding that has gone through the first j. */
  method DecodeNext(pdo: Pdo, payload: seq<u8>, j: nat, cursor: nat, simulator: CanNodeSimulator, ghost d: Dictionary)
    returns (r: Result<()>)
    requires FitsWord(pdo.signals, payload)
    requires j < |pdo.signals| && cursor == Offset(pdo.signals, j)
    requires j <= FirstRefused(d, simulator.pdoByKey, pdo, payload, 0)
    requires simulator.dictionary == Applied(d, simulator.pdoByKey, pdo, payload, j)
    modifies simulator`dictionary
    ensures var n := FirstRefused(d, simulator.pdoByKey, pdo, payload, 0);
            if n == j then
              && r == Err(StepError(d, simulator.pdoByKey, pdo, payload, j).value)
              && simulator.dictionary == old(simulator.dictionary)
            else r == Ok(()) && simulator.dictionary == Applied(d, simulator.pdoByKey, pdo, payload, j + 1)
  {
    DecodeStep(d, simulator.pdoByKey, pdo, payload, j);
    AppliedShape(d, simulator.pdoByKey, pdo, payload, j);
    r := DecodeSignal(pdo, payload, j, cursor, simulator, d);
  }

  method DecodePdoPayload(pdo: Pdo, payload: seq<u8>, simulator: CanNodeSimulator) returns (r: Result<()>)
    requires FitsWord(pdo.signals, payload)
    modifies simulator`dictionary
    ensures var d, table := old(simulator.dictionary), simulator.pdoByKey;
            var n := FirstRefused(d, table, pdo, payload, 0);
            && simulator.dictionary == Applied(d, table, pdo, payload, n)
            && r == if n == |pdo.signals| then Ok(()) else Err(StepError(d, table, pdo, payload, n).value)
  {
    ghost var d, table := simulator.dictionary, simulator.pdoByKey;
    var cursor := 0;
    for j := 0 to |pdo.signals|
      invariant cursor == Offset(pdo.signals, j)
      invariant j <= FirstRefused(d, table, pdo, payload, 0)
      invariant simulator.dictionary == Applied(d, table, pdo, payload, j)
    {
      var _ :- DecodeNext(pdo, payload, j, cursor, simulator, d);
      cursor := cursor + Width(pdo.signals[j]);
    }
    return Ok(());
  }

  /**
   Decoding succeeds exactly when all widths are byte-aligned, their sum fits the payload and
   every mapped entry exists, is writable and takes unsigned values.
   */
  lemma DecodeSucceedsIff(d: Dictionary, table: PdoTable, pdo: Pdo, payload: seq<u8>)
    ensures FirstRefused(d, table, pdo, payload, 0) == |pdo.signals| <==>
            && Offset(pdo.signals, |pdo.signals|) <= |payload|
            && forall j :: 0 <= j < |pdo.signals| ==>
                 && Aligned(pdo.signals[j])
                 && MappedKey(table, Receive, pdo.number, j).Ok?
                 && Accepts(d, MappedKey(table, Receive, pdo.number, j).value, Unsigned(0))
  {
    var n := |pdo.signals|;
    forall j {:trigger pdo.signals[j]} | 0 <= j < n
      ensures Offset(pdo.signals, j + 1) <= Offset(pdo.signals, n)
    {
      OffsetMonotone(pdo.signals, j + 1, n);
    }
    if FirstRefused(d, table, pdo, payload, 0) == n {
      forall j | 0 <= j < n
        ensures && Aligned(pdo.signals[j])
                && MappedKey(table, Receive, pdo.number, j).Ok?
                && Accepts(d, MappedKey(table, Receive, pdo.number, j).value, Unsigned(0))
      {
        assert StepError(d, table, pdo, payload, j).None?;
      }
      if n > 0 {
        assert StepError(d, table, pdo, payload, n - 1).None?;
      }
    }
  }

  /** The last of the first n signals mapped to key k, or -1. */
  function LastMapped(table: PdoTable, number: u16, k: ObjectKey, n: nat): (j: int)
    ensures -1 <= j < n
    ensures j >= 0 ==> MappedKey(table, Receive, number, j) == Ok(k)
    ensures forall i :: j < i < n ==> MappedKey(table, Receive, number, i) != Ok(k)
  {
    if n == 0 then -1
    else if MappedKey(table, Receive, number, n - 1) == Ok(k) then n - 1
    else LastMapped(table, number, k, n - 1)
  }

  /** An entry none of signals j to n-1 maps to is left as it was after the first j. */
  lemma {:induction false} AppliedStays(d: Dictionary, table: PdoTable, pdo: Pdo, payload: seq<u8>,
                                        j: nat, n: nat, k: ObjectKey)
    requires j <= n <= |pdo.signals| && FitsWord(pdo.signals, payload)
    requires StepsAccepted(d, table, pdo, payload, n) && k in d
    requires LastMapped(table, pdo.number, k, n) < j
    ensures Applied(d, table, pdo, payload, n)[k] == Applied(d, table, pdo, payload, j)[k]
    decreases n
  {
    if j < n {
      OtherStays(d, table, pdo, payload, n, k);
      AppliedStays(d, table, pdo, payload, j, n - 1, k);
    }
  }

  lemma OtherStays(d: Dictionary, table: PdoTable, pdo: Pdo, payload: seq<u8>, n: nat, k: ObjectKey)
    requires 0 < n <= |pdo.signals| && FitsWord(pdo.signals, payload)
    requires StepsAccepted(d, table, pdo, payload, n) && k in d
    requires MappedKey(table, Receive, pdo.number, n - 1) != Ok(k)
    ensures StepsAccepted(d, table, pdo, payload, n - 1)
    ensures Applied(d, table, pdo, payload, n)[k] == Applied(d, table, pdo, payload, n - 1)[k]
  {
    var before, key, v := AppliedNext(d, table, pdo, payload, n);
  }

  /** An entry no signal maps to is untouched; an entry several map to ends with the last of them. */
  lemma AppliedAt(d: Dictionary, table: PdoTable, pdo: Pdo, payload: seq<u8>, n: nat, k: ObjectKey)
    requires n <= |pdo.signals| && FitsWord(pdo.signals, payload)
    requires StepsAccepted(d, table, pdo, payload, n) && k in d
    ensures var j := LastMapped(table, pdo.number, k, n);
            if j < 0 then Applied(d, table, pdo, payload, n)[k] == d[k]
            else
              && Offset(pdo.signals, j + 1) <= |payload|
              && SliceValue(pdo.signals, payload, j) < 0x1_0000_0000_0000_0000
              && Applied(d, table, pdo, payload, n)[k]
                 == d[k].(value := Unsigned(SliceValue(pdo.signals, payload, j)))
  {
    var j := LastMapped(table, pdo.number, k, n);
    AppliedStays(d, table, pdo, payload, j + 1, n, k);
    if j >= 0 {
      AppliedShape(d, table, pdo, payload, j);
      var before, key, v := AppliedNext(d, table, pdo, payload, j + 1);
    }
  }

  // ----- Decoding in numbers -----

  /** Byte i of a slice is the i-th base-256 digit of the value read from it. */
  lemma SliceDigits(signals: seq<Signal>, payload: seq<u8>, j: nat, i: nat)
    requires j < |signals| && Offset(signals, j + 1) <= |payload| && i < Width(signals[j])
    ensures SliceValue(signals, payload, j) < Pow2(8 * Width(signals[j]))
    ensures SliceValue(signals, payload, j) / Pow2(8 * i) % 256 == payload[Offset(signals, j) + i]
  {
    var bytes := payload[Offset(signals, j)..Offset(signals, j + 1)];
    LeBytesOfValue(bytes);
    LeBytesAt(LeValue(bytes), |bytes|, i);
    LeValueBound(bytes);
  }

  lemma SliceBound(signals: seq<Signal>, payload: seq<u8>, j: nat)
    requires j < |signals| && Offset(signals, j + 1) <= |payload|
    ensures SliceValue(signals, payload, j) < Pow2(8 * Width(signals[j]))
  {
    LeValueBound(payload[Offset(signals, j)..Offset(signals, j + 1)]);
  }
}
