/** Derives the PDO list from the communication and mapping records of a dictionary. */
module PdoBuilder {
  import opened Types
  import opened Bits
  import opened Model
  import opened Walks

  datatype Warning =
    | MissingCobId(index: u16)
    | MissingMapping(index: u16, subIndex: u8)
    | MissingEntry(key: ObjectKey)

  datatype BuildResult = BuildResult(pdos: seq<Pdo>, warnings: seq<Warning>)

  const RECORDS: nat := 0x200

  function ReadU64(d: Dictionary, index: u16, subIndex: u8): Option<u64> {
    var k := ObjectKey(index, subIndex);
    if k in d then ValueToU64(d[k].value) else None
  }

  function CommStart(direction: Direction): u16 {
    if direction.Receive? then 0x1400 else 0x1800
  }

  function MapStart(direction: Direction): u16 {
    if direction.Receive? then 0x1600 else 0x1A00
  }

  /** The communication record of a PDO. */
  function CommIndex(direction: Direction, number: u16): u16
    requires 1 <= number <= RECORDS
  {
    CommStart(direction) + number - 1
  }

  /** The mapping record of a PDO. */
  function MapIndex(direction: Direction, number: u16): u16
    requires 1 <= number <= RECORDS
  {
    MapStart(direction) + number - 1
  }

  // ----- One mapping word -----

  function SignalKey(packed: u32): ObjectKey {
    ObjectKey(Mask16(Shr(packed, 16)), Mask8(Shr(packed, 8)))
  }

  function SignalBits(packed: u32): u8 {
    Mask8(packed)
  }

  lemma ShiftsAreQuotients(packed: nat)
    ensures Shr(packed, 8) == packed / 0x100 && Shr(packed, 16) == packed / 0x1_0000
  {
    ShrByte(packed, 8);
    ShrByte(packed, 0);
    ShrByte(packed / 0x100, 0);
  }

  lemma SignalFields(packed: u32)
    ensures SignalKey(packed).index == packed / 0x1_0000
    ensures SignalKey(packed).subIndex == packed / 0x100 % 0x100
    ensures SignalBits(packed) == packed % 0x100
  {
    ShiftsAreQuotients(packed);
    var high := packed / 0x1_0000;
    assert 0 <= high < 0x1_0000;
    assert high % 0x1_0000 == high;
  }

  lemma ThreeFields(x: nat)
    ensures x / 0x1_0000 * 0x1_0000 + x / 0x100 % 0x100 * 0x100 + x % 0x100 == x
  {
  }

  /** Index, sub-index and bit length repack to the mapping word. */
  lemma SignalRepacks(packed: u32)
    ensures var k := SignalKey(packed);
            k.index * 0x1_0000 + k.subIndex * 0x100 + SignalBits(packed) == packed
  {
    SignalFields(packed);
    ThreeFields(packed);
  }

  predicate Named(d: Dictionary, k: ObjectKey) {
    k in d && d[k].name != ""
  }

  function SignalOf(d: Dictionary, packed: u32): Signal {
    var k := SignalKey(packed);
    Signal(k, SignalBits(packed), if Named(d, k) then d[k].name else CanonicalKey(k))
  }

  // ----- One record -----

  function SignalsFor(d: Dictionary, index: u16, sub: u8): seq<Signal> {
    match ReadU64(d, index, sub)
    case None => []
    case Some(word) => [SignalOf(d, U32(word))]
  }

  function MappingWarnings(d: Dictionary, index: u16, sub: u8): seq<Warning> {
    match ReadU64(d, index, sub)
    case None => [MissingMapping(index, sub)]
    case Some(word) => if Named(d, SignalKey(U32(word))) then [] else [MissingEntry(SignalKey(U32(word)))]
  }

  /** The signals of sub-indices 1 to n. */
  function Signals(d: Dictionary, index: u16, n: u8): seq<Signal> {
    if n == 0 then [] else Signals(d, index, n - 1) + SignalsFor(d, index, n)
  }

  function SignalWarnings(d: Dictionary, index: u16, n: u8): seq<Warning> {
    if n == 0 then [] else SignalWarnings(d, index, n - 1) + MappingWarnings(d, index, n)
  }

  function Field(o: Option<u64>, fallback: nat, size: nat): (v: nat)
    requires size > 0 && fallback < size
    ensures v < size
  {
    if o.Some? then o.value % size else fallback
  }

  function CommunicationAt(d: Dictionary, index: u16): Communication {
    Communication(
      Field(ReadU64(d, index, 1), 0, 0x1_0000_0000),
      Field(ReadU64(d, index, 2), 255, 0x100),
      Field(ReadU64(d, index, 3), 0, 0x1_0000),
      Field(ReadU64(d, index, 5), 0, 0x1_0000))
  }

  function CobIdWarnings(d: Dictionary, index: u16): seq<Warning> {
    if ReadU64(d, index, 1).None? then [MissingCobId(index)] else []
  }

  /** The signal count of a mapping record, truncated to eight bits. */
  function SignalCount(d: Dictionary, direction: Direction, number: u16): Option<u8>
    requires 1 <= number <= RECORDS
  {
    match ReadU64(d, MapIndex(direction, number), 0)
    case None => None
    case Some(n) => Some(U8(n))
  }

  function PdosFor(d: Dictionary, direction: Direction, number: u16): seq<Pdo>
    requires 1 <= number <= RECORDS
  {
    match SignalCount(d, direction, number)
    case None => []
    case Some(n) =>
      [Pdo(direction, number, CommunicationAt(d, CommIndex(direction, number)),
           Signals(d, MapIndex(direction, number), n))]
  }

  function WarningsFor(d: Dictionary, direction: Direction, number: u16): seq<Warning>
    requires 1 <= number <= RECORDS
  {
    match SignalCount(d, direction, number)
    case None => []
    case Some(n) =>
      CobIdWarnings(d, CommIndex(direction, number)) + SignalWarnings(d, MapIndex(direction, number), n)
  }

  function RangePdos(d: Dictionary, direction: Direction, n: nat): seq<Pdo>
    requires n <= RECORDS
  {
    if n == 0 then [] else RangePdos(d, direction, n - 1) + PdosFor(d, direction, n)
  }

  function RangeWarnings(d: Dictionary, direction: Direction, n: nat): seq<Warning>
    requires n <= RECORDS
  {
    if n == 0 then [] else RangeWarnings(d, direction, n - 1) + WarningsFor(d, direction, n)
  }

  function BuiltPdos(d: Dictionary): seq<Pdo> {
    RangePdos(d, Receive, RECORDS) + RangePdos(d, Transmit, RECORDS)
  }

  function BuiltWarnings(d: Dictionary): seq<Warning> {
    RangeWarnings(d, Receive, RECORDS) + RangeWarnings(d, Transmit, RECORDS)
  }

  // ----- The counter loop over sub-indices -----

  /** The eight-bit counter after n increments from 1. */
  function Counter(n: nat): u8 {
    if n == 0 then 1 else U8(Counter(n - 1) + 1)
  }

  lemma {:induction false} CounterValue(n: nat)
    requires n <= 254
    ensures Counter(n) == n + 1
  {
    if n > 0 {
      CounterValue(n - 1);
      Fits8(n + 1);
    }
  }

  /** The loop `sub <= count` is left after some number of increments exactly when count is at most 254. */
  lemma CounterLoopEndsIff(count: u8)
    ensures (exists n: nat :: Counter(n) > count) <==> count <= 254
  {
    if count <= 254 {
      CounterValue(count);
      assert Counter(count) > count;
    }
  }

  /** No mapping record asks for 255 signals, the one count the builder's loop never gets past. */
  predicate CountsTerminate(d: Dictionary) {
    forall direction: Direction, number: u16 :: 1 <= number <= RECORDS ==>
      SignalCount(d, direction, number) != Some(255)
  }

  /** A dictionary whose one entry asks for 255 signals; the counter never gets past that count. */
  lemma CountOf255NeverEnds(direction: Direction, number: u16)
    requires 1 <= number <= RECORDS
    ensures var k := ObjectKey(MapIndex(direction, number), 0);
            var d := map[k := DEFAULT_ENTRY.(key := k, value := Unsigned(255))];
            !CountsTerminate(d) && SignalCount(d, direction, number) == Some(255)
    ensures !exists n: nat :: Counter(n) > 255
  {
    var k := ObjectKey(MapIndex(direction, number), 0);
    var d := map[k := DEFAULT_ENTRY.(key := k, value := Unsigned(255))];
    assert SignalCount(d, direction, number) == Some(255);
    CounterLoopEndsIff(255);
  }

  // ----- The builder -----

  method ReadCommunication(d: Dictionary, commIndex: u16) returns (c: Communication, warnings: seq<Warning>)
    ensures c == CommunicationAt(d, commIndex) && warnings == CobIdWarnings(d, commIndex)
  {
    c, warnings := DEFAULT_COMMUNICATION, [];
    var cobId := ReadU64(d, commIndex, 1);
    if cobId.Some? {
      c := c.(cobId := U32(cobId.value));
    } else {
      warnings := [MissingCobId(commIndex)];
    }
    var transmissionType := ReadU64(d, commIndex, 2);
    if transmissionType.Some? {
      c := c.(transmissionType := U8(transmissionType.value));
    }
    var inhibitTime := ReadU64(d, commIndex, 3);
    if inhibitTime.Some? {
      c := c.(inhibitTime := U16(inhibitTime.value));
    }
    var eventTimer := ReadU64(d, commIndex, 5);
    if eventTimer.Some? {
      c := c.(eventTimer := U16(eventTimer.value));
    }
  }

  method BuildRange(d: Dictionary, direction: Direction, commStart: u16, mapStart: u16, count: u16)
    returns (r: BuildResult)
    requires commStart == CommStart(direction) && mapStart == MapStart(direction) && count == RECORDS
    requires CountsTerminate(d)
    ensures r.pdos == RangePdos(d, direction, count)
    ensures r.warnings == RangeWarnings(d, direction, count)
  {
    var pdos, warnings: seq<Warning> := [], [];
    for offset := 0 to count
      invariant pdos == RangePdos(d, direction, offset)
      invariant warnings == RangeWarnings(d, direction, offset)
    {
      var mapIndex := U16(mapStart + offset);
      var commIndex := U16(commStart + offset);
      assert mapIndex == MapIndex(direction, offset + 1) && commIndex == CommIndex(direction, offset + 1);
      var signalCountRead := ReadU64(d, mapIndex, 0);
      if signalCountRead.None? {
        continue;
      }
      var signalCount := U8(signalCountRead.value);
      assert SignalCount(d, direction, offset + 1) == Some(signalCount);
      var communication, missing := ReadCommunication(d, commIndex);
      var signals, more := BuildSignals(d, mapIndex, signalCount);
      warnings := warnings + (missing + more);
      pdos := pdos + [Pdo(direction, offset + 1, communication, signals)];
    }
    r := BuildResult(pdos, warnings);
  }

  /** The inner loop: sub-indices counted in eight bits. */
  method BuildSignals(d: Dictionary, mapIndex: u16, signalCount: u8)
    returns (signals: seq<Signal>, warnings: seq<Warning>)
    requires signalCount <= 254
    ensures signals == Signals(d, mapIndex, signalCount)
    ensures warnings == SignalWarnings(d, mapIndex, signalCount)
  {
    signals, warnings := [], [];
    var sub: u8 := 1;
    while sub <= signalCount
      invariant 1 <= sub <= signalCount + 1
      invariant signals == Signals(d, mapIndex, sub - 1)
      invariant warnings == SignalWarnings(d, mapIndex, sub - 1)
      decreases signalCount - sub
    {
      var word := ReadU64(d, mapIndex, sub);
      if word.None? {
        warnings := warnings + [MissingMapping(mapIndex, sub)];
      } else {
        var packed := U32(word.value);
        var key := SignalKey(packed);
        var name;
        if key in d && d[key].name != "" {
          name := d[key].name;
        } else {
          name := CanonicalKey(key);
          warnings := warnings + [MissingEntry(key)];
        }
        signals := signals + [Signal(key, SignalBits(packed), name)];
      }
      sub := U8(sub + 1);
    }
  }

  method Build(d: Dictionary) returns (r: BuildResult)
    requires CountsTerminate(d)
    ensures r == BuildResult(BuiltPdos(d), BuiltWarnings(d))
  {
    var receive := BuildRange(d, Receive, 0x1400, 0x1600, 0x200);
    var transmit := BuildRange(d, Transmit, 0x1800, 0x1A00, 0x200);
    r := BuildResult(receive.pdos + transmit.pdos, receive.warnings + transmit.warnings);
  }

  // ----- Conservation and order -----

  function MissingOf(): Warning -> seq<u8> {
    (w: Warning) => if w.MissingMapping? then [w.subIndex] else []
  }

  /** The sub-indices reported as missing, in order. */
  function MissingSubs(warnings: seq<Warning>): seq<u8> {
    FlatMap(MissingOf(), warnings)
  }

  lemma SubConserved(d: Dictionary, index: u16, sub: u8)
    ensures |SignalsFor(d, index, sub)| + |MissingSubs(MappingWarnings(d, index, sub))| == 1
  {
    var more := MappingWarnings(d, index, sub);
    if more != [] {
      assert more == [more[0]];
      FlatMapOne(MissingOf(), more[0]);
    }
  }

  /** Every counted sub-index yields a signal or a missing-mapping warning, never both. */
  lemma {:induction false} SignalsConserved(d: Dictionary, index: u16, n: u8)
    ensures |Signals(d, index, n)| + |MissingSubs(SignalWarnings(d, index, n))| == n
  {
    if n > 0 {
      SignalsConserved(d, index, n - 1);
      SubConserved(d, index, n);
      FlatMapAppend(MissingOf(), SignalWarnings(d, index, n - 1), MappingWarnings(d, index, n));
    }
  }

  /** The sub-indices among 1 to n whose mapping word is readable, in order. */
  function PresentSubs(d: Dictionary, index: u16, n: u8): seq<u8> {
    if n == 0 then []
    else PresentSubs(d, index, n - 1) + if ReadU64(d, index, n).Some? then [n] else []
  }

  lemma {:induction false} PresentSubsIncrease(d: Dictionary, index: u16, n: u8)
    ensures var subs := PresentSubs(d, index, n);
            && (forall s :: s in subs <==> 1 <= s <= n && ReadU64(d, index, s).Some?)
            && (forall i, j :: 0 <= i < j < |subs| ==> subs[i] < subs[j])
  {
    if n > 0 {
      PresentSubsIncrease(d, index, n - 1);
      var before := PresentSubs(d, index, n - 1);
      assert forall i :: 0 <= i < |before| ==> before[i] in before;
    }
  }

  /** Signal i is the readable word of the i-th present sub-index, split into its three fields. */
  lemma {:induction false} SignalsFollowSubs(d: Dictionary, index: u16, n: u8, i: nat)
    requires i < |PresentSubs(d, index, n)|
    ensures |Signals(d, index, n)| == |PresentSubs(d, index, n)|
    ensures var s, sub := Signals(d, index, n)[i], PresentSubs(d, index, n)[i];
            ReadU64(d, index, sub).Some? &&
            s.key.index * 0x1_0000 + s.key.subIndex * 0x100 + s.bitLength
            == ReadU64(d, index, sub).value % 0x1_0000_0000
  {
    SameLength(d, index, n);
    if i < |PresentSubs(d, index, n - 1)| {
      SignalsFollowSubs(d, index, n - 1, i);
    } else {
      SameLength(d, index, n - 1);
      SignalRepacks(U32(ReadU64(d, index, n).value));
    }
  }

  lemma {:induction false} SameLength(d: Dictionary, index: u16, n: u8)
    ensures |Signals(d, index, n)| == |PresentSubs(d, index, n)|
  {
    if n > 0 {
      SameLength(d, index, n - 1);
    }
  }

  // ----- Which PDOs exist -----

  predicate IsPdo(pdo: Pdo, direction: Direction, number: u16) {
    pdo.direction == direction && pdo.number == number
  }

  predicate DistinctNumbers(pdos: seq<Pdo>) {
    forall i, j :: 0 <= i < j < |pdos| ==> !IsPdo(pdos[i], pdos[j].direction, pdos[j].number)
  }

  /** Every PDO of a range is the one of its record. */
  lemma {:induction false} RangeMember(d: Dictionary, direction: Direction, n: nat, p: Pdo)
    requires n <= RECORDS && p in RangePdos(d, direction, n)
    ensures p.direction == direction && 1 <= p.number <= n && [p] == PdosFor(d, direction, p.number)
  {
    if p in RangePdos(d, direction, n - 1) {
      RangeMember(d, direction, n - 1, p);
    }
  }

  /** The PDO of every record is in the range. */
  lemma {:induction false} RangeComplete(d: Dictionary, direction: Direction, n: nat, number: u16)
    requires n <= RECORDS && 1 <= number <= n && PdosFor(d, direction, number) != []
    ensures PdosFor(d, direction, number)[0] in RangePdos(d, direction, n)
  {
    if number < n {
      RangeComplete(d, direction, n - 1, number);
    }
  }

  lemma {:induction false} RangeDistinct(d: Dictionary, direction: Direction, n: nat)
    requires n <= RECORDS
    ensures DistinctNumbers(RangePdos(d, direction, n))
  {
    if n > 0 {
      var before, more := RangePdos(d, direction, n - 1), PdosFor(d, direction, n);
      RangeDistinct(d, direction, n - 1);
      forall p, q | p in before && q in more
        ensures p.direction != q.direction || p.number != q.number
      {
        RangeMember(d, direction, n - 1, p);
      }
      DistinctConcat(before, more);
    }
  }

  lemma RangeContents(d: Dictionary, direction: Direction, n: nat)
    requires n <= RECORDS
    ensures forall p :: p in RangePdos(d, direction, n) ==>
              p.direction == direction && 1 <= p.number <= n && [p] == PdosFor(d, direction, p.number)
    ensures forall number: u16 :: 1 <= number <= n && PdosFor(d, direction, number) != [] ==>
              PdosFor(d, direction, number)[0] in RangePdos(d, direction, n)
    ensures DistinctNumbers(RangePdos(d, direction, n))
  {
    forall p | p in RangePdos(d, direction, n)
      ensures p.direction == direction && 1 <= p.number <= n && [p] == PdosFor(d, direction, p.number)
    {
      RangeMember(d, direction, n, p);
    }
    forall number: u16 | 1 <= number <= n && PdosFor(d, direction, number) != []
      ensures PdosFor(d, direction, number)[0] in RangePdos(d, direction, n)
    {
      RangeComplete(d, direction, n, number);
    }
    RangeDistinct(d, direction, n);
  }

  lemma DistinctConcat(a: seq<Pdo>, b: seq<Pdo>)
    requires DistinctNumbers(a) && DistinctNumbers(b)
    requires forall p, q :: p in a && q in b ==> p.direction != q.direction || p.number != q.number
    ensures DistinctNumbers(a + b)
  {
    assert forall i :: 0 <= i < |a| ==> a[i] in a;
    assert forall i :: 0 <= i < |b| ==> b[i] in b;
  }

  /** The built PDOs are those of the mapping records, each once. */
  lemma BuiltContents(d: Dictionary)
    ensures DistinctNumbers(BuiltPdos(d))
    ensures forall p :: p in BuiltPdos(d) ==> 1 <= p.number <= RECORDS && [p] == PdosFor(d, p.direction, p.number)
  {
    RangeContents(d, Receive, RECORDS);
    RangeContents(d, Transmit, RECORDS);
    DistinctConcat(RangePdos(d, Receive, RECORDS), RangePdos(d, Transmit, RECORDS));
  }

  // ----- What is built, in numbers -----

  /** The entry at k stands for the integer n. */
  ghost predicate StandsAt(d: Dictionary, k: ObjectKey, n: int) {
    k in d && StandsFor(d[k].value, n)
  }

  lemma ReadsWhatStands(d: Dictionary, index: u16, subIndex: u8)
    ensures var k, read := ObjectKey(index, subIndex), ReadU64(d, index, subIndex);
            && (forall n :: StandsAt(d, k, n) ==> read == Some(n))
            && (read.Some? <==> exists n :: StandsAt(d, k, n))
            && (read.Some? ==> StandsAt(d, k, read.value))
  {
    var k := ObjectKey(index, subIndex);
    if k in d {
      ReadAsInteger(d[k].value);
      var read := ReadU64(d, index, subIndex);
      assert read.Some? ==> StandsAt(d, k, read.value);
    }
  }

  /** A PDO is built for a record exactly when sub-index 0 of its mapping, at 0x1600 or 0x1A00, holds an integer. */
  lemma PdoBuiltIff(d: Dictionary, direction: Direction, number: u16)
    requires 1 <= number <= 512
    ensures var index := (if direction.Receive? then 0x1600 else 0x1A00) + number - 1;
            (exists n :: StandsAt(d, ObjectKey(index, 0), n)) <==>
            exists p :: p in BuiltPdos(d) && IsPdo(p, direction, number)
  {
    var index := (if direction.Receive? then 0x1600 else 0x1A00) + number - 1;
    ReadsWhatStands(d, index, 0);
    if ReadU64(d, index, 0).Some? {
      PdoExists(d, direction, number);
    }
    if p :| p in BuiltPdos(d) && IsPdo(p, direction, number) {
      BuiltContents(d);
      assert PdosFor(d, direction, number) == [p];
    }
  }

  /** A field is the entry's integer cut to the field's size, or a fixed number where the entry holds none. */
  ghost predicate FieldReads(d: Dictionary, index: u16, subIndex: u8, size: nat, fallback: nat, field: nat)
    requires size > 0
  {
    var k := ObjectKey(index, subIndex);
    && (forall n :: StandsAt(d, k, n) ==> field == n % size)
    && ((!exists n :: StandsAt(d, k, n)) ==> field == fallback)
  }

  lemma FieldInNumbers(d: Dictionary, index: u16, subIndex: u8, size: nat, fallback: nat)
    requires size > 0 && fallback < size
    ensures FieldReads(d, index, subIndex, size, fallback, Field(ReadU64(d, index, subIndex), fallback, size))
  {
    ReadsWhatStands(d, index, subIndex);
  }

  /**
   The communication of every built PDO, read from sub-indices 1, 2, 3 and 5 of the record at 0x1400 or
   0x1800; without an integer there it is COB-ID 0, type 255, no inhibit time and no event timer.
   */
  lemma CommunicationInNumbers(d: Dictionary, p: Pdo)
    requires p in BuiltPdos(d)
    ensures 1 <= p.number <= 512
    ensures var index, c := (if p.direction.Receive? then 0x1400 else 0x1800) + p.number - 1, p.communication;
            && FieldReads(d, index, 1, 0x1_0000_0000, 0, c.cobId)
            && FieldReads(d, index, 2, 0x100, 255, c.transmissionType)
            && FieldReads(d, index, 3, 0x1_0000, 0, c.inhibitTime)
            && FieldReads(d, index, 5, 0x1_0000, 0, c.eventTimer)
  {
    BuiltContents(d);
    var index := CommIndex(p.direction, p.number);
    assert PdosFor(d, p.direction, p.number)[0] == p;
    assert p.communication == CommunicationAt(d, index);
    FieldInNumbers(d, index, 1, 0x1_0000_0000, 0);
    FieldInNumbers(d, index, 2, 0x100, 255);
    FieldInNumbers(d, index, 3, 0x1_0000, 0);
    FieldInNumbers(d, index, 5, 0x1_0000, 0);
  }

  /** A signal is the mapping word w cut into 16, 8 and 8 bits, called what the entry it names is called. */
  ghost predicate SignalReads(d: Dictionary, s: Signal, w: nat) {
    && s.key == ObjectKey(w / 0x1_0000 % 0x1_0000, w / 0x100 % 0x100) && s.bitLength == w % 0x100
    && s.name == if s.key in d && d[s.key].name != "" then d[s.key].name else CanonicalKey(s.key)
  }

  /** Digits below a cut are not changed by the cut. */
  lemma CutDigits(x: nat, low: nat, digit: nat, rest: nat)
    requires low > 0 && digit > 0 && rest > 0
    ensures low * (digit * rest) > 0
    ensures x % (low * (digit * rest)) / low % digit == x / low % digit
  {
    PositiveProduct(digit, rest);
    PositiveProduct(low, digit * rest);
    var whole := low * (digit * rest);
    var q, u := x / whole, x % whole;
    var hi, lo := u / low, u % low;
    assert x == q * whole + u && u == hi * low + lo;
    assert q * whole == q * (digit * rest) * low;
    assert (q * (digit * rest) + hi) * low == q * (digit * rest) * low + hi * low;
    DivModUnique(x, low, q * (digit * rest) + hi, lo);
    var h, m := hi / digit, hi % digit;
    assert q * (digit * rest) == (q * rest) * digit;
    assert (q * rest + h) * digit == (q * rest) * digit + h * digit;
    DivModUnique(q * (digit * rest) + hi, digit, q * rest + h, m);
  }

  lemma PositiveProduct(a: nat, b: nat)
    requires a > 0 && b > 0
    ensures a * b > 0
  {
  }

  lemma WordFields(w: u64)
    ensures U32(w) / 0x1_0000 == w / 0x1_0000 % 0x1_0000
    ensures U32(w) / 0x100 % 0x100 == w / 0x100 % 0x100 && U32(w) % 0x100 == w % 0x100
  {
    CutDigits(w, 0x1_0000, 0x1_0000, 1);
    CutDigits(w, 0x100, 0x100, 0x1_0000);
    CutDigits(w, 1, 0x100, 0x100_0000);
    TopDigit(U32(w));
  }

  lemma TopDigit(u: u32)
    ensures u / 0x1_0000 % 0x1_0000 == u / 0x1_0000
  {
    var hi := u / 0x1_0000;
    assert 0 <= hi < 0x1_0000;
    DivModUnique(hi, 0x1_0000, 0, hi);
  }

  lemma SignalInNumbers(d: Dictionary, w: u64)
    ensures SignalReads(d, SignalOf(d, U32(w)), w)
  {
    SignalFields(U32(w));
    WordFields(w);
  }

  lemma {:induction false} SignalsInNumbers(d: Dictionary, index: u16, n: u8)
    requires forall sub: u8 :: 1 <= sub <= n ==> ReadU64(d, index, sub).Some?
    ensures |Signals(d, index, n)| == n
    ensures forall sub: u8 :: 1 <= sub <= n ==>
              SignalReads(d, Signals(d, index, n)[sub - 1], ReadU64(d, index, sub).value)
  {
    if n > 0 {
      SignalsInNumbers(d, index, n - 1);
      SignalInNumbers(d, ReadU64(d, index, n).value);
    }
  }

  /**
   The signals of a built PDO whose mapping record, at 0x1600 or 0x1A00, holds a count and that many
   mapping words: one per word, in order.
   */
  lemma MappingInNumbers(d: Dictionary, p: Pdo, count: int)
    requires p in BuiltPdos(d) && 1 <= p.number <= 512
    requires var index := (if p.direction.Receive? then 0x1600 else 0x1A00) + p.number - 1;
             && StandsAt(d, ObjectKey(index, 0), count)
             && forall sub: u8 :: 1 <= sub <= count % 0x100 ==> exists w :: StandsAt(d, ObjectKey(index, sub), w)
    ensures |p.signals| == count % 0x100
    ensures var index := (if p.direction.Receive? then 0x1600 else 0x1A00) + p.number - 1;
            forall sub: u8, w: int :: 1 <= sub <= count % 0x100 && StandsAt(d, ObjectKey(index, sub), w) ==>
              SignalReads(d, p.signals[sub - 1], w)
  {
    var index := MapIndex(p.direction, p.number);
    ReadsWhatStands(d, index, 0);
    BuiltContents(d);
    assert PdosFor(d, p.direction, p.number)[0] == p;
    assert p.signals == Signals(d, index, count % 0x100);
    forall sub: u8 | 1 <= sub <= count % 0x100
      ensures ReadU64(d, index, sub).Some?
      ensures forall w :: StandsAt(d, ObjectKey(index, sub), w) ==> ReadU64(d, index, sub) == Some(w)
    {
      ReadsWhatStands(d, index, sub);
    }
    SignalsInNumbers(d, index, count % 0x100);
  }

  // ----- What is warned of -----

  /** The outputs of 1 to n, one after the other. */
  ghost function Joined<A>(f: nat -> seq<A>, n: nat): seq<A> {
    if n == 0 then [] else Joined(f, n - 1) + f(n)
  }

  lemma {:induction false} InJoined<A>(f: nat -> seq<A>, n: nat, x: A, i: nat)
    requires 1 <= i <= n && x in f(i)
    ensures x in Joined(f, n)
  {
    if i < n {
      InJoined(f, n - 1, x, i);
    }
  }

  lemma {:induction false} FromJoined<A>(f: nat -> seq<A>, n: nat, x: A) returns (i: nat)
    requires x in Joined(f, n)
    ensures 1 <= i <= n && x in f(i)
  {
    if x in f(n) {
      i := n;
    } else {
      i := FromJoined(f, n - 1, x);
    }
  }

  ghost function WarningsOfRecord(d: Dictionary, direction: Direction): nat -> seq<Warning> {
    (number: nat) => if 1 <= number <= RECORDS then WarningsFor(d, direction, number) else []
  }

  lemma {:induction false} RangeIsJoined(d: Dictionary, direction: Direction, n: nat)
    requires n <= RECORDS
    ensures RangeWarnings(d, direction, n) == Joined(WarningsOfRecord(d, direction), n)
  {
    if n > 0 {
      RangeIsJoined(d, direction, n - 1);
    }
  }

  /** A range warns of what its records warn of. */
  lemma RecordWarns(d: Dictionary, direction: Direction, n: nat, w: Warning, number: u16)
    requires n <= RECORDS && 1 <= number <= n && w in WarningsFor(d, direction, number)
    ensures w in RangeWarnings(d, direction, n)
  {
    RangeIsJoined(d, direction, n);
    InJoined(WarningsOfRecord(d, direction), n, w, number);
  }

  /** A record that warns of what its range warns of. */
  lemma WarnedRecord(d: Dictionary, direction: Direction, n: nat, w: Warning) returns (number: u16)
    requires n <= RECORDS && w in RangeWarnings(d, direction, n)
    ensures 1 <= number <= n && w in WarningsFor(d, direction, number)
  {
    RangeIsJoined(d, direction, n);
    number := FromJoined(WarningsOfRecord(d, direction), n, w);
  }

  lemma WarnedSomewhere(d: Dictionary, w: Warning) returns (direction: Direction, number: u16)
    requires w in BuiltWarnings(d)
    ensures 1 <= number <= 512 && w in WarningsFor(d, direction, number)
  {
    direction := if w in RangeWarnings(d, Receive, RECORDS) then Receive else Transmit;
    number := WarnedRecord(d, direction, RECORDS, w);
  }

  lemma WarnedOf(d: Dictionary, w: Warning, direction: Direction, number: u16)
    requires 1 <= number <= 512 && w in WarningsFor(d, direction, number)
    ensures w in BuiltWarnings(d)
  {
    RecordWarns(d, direction, RECORDS, w, number);
  }

  lemma CobIdWarnedOf(d: Dictionary, direction: Direction, number: u16, index: u16)
    requires 1 <= number <= RECORDS && MissingCobId(index) in WarningsFor(d, direction, number)
    ensures index == CommIndex(direction, number) && ReadU64(d, index, 1).None?
    ensures exists p :: p in BuiltPdos(d) && IsPdo(p, direction, number)
  {
    NotOfSignals(d, MapIndex(direction, number), SignalCount(d, direction, number).value, index);
    assert MissingCobId(index) in CobIdWarnings(d, CommIndex(direction, number));
    PdoExists(d, direction, number);
  }

  lemma CobIdWarns(d: Dictionary, p: Pdo)
    requires p in BuiltPdos(d)
    ensures 1 <= p.number <= RECORDS
    ensures var index := CommIndex(p.direction, p.number);
            ReadU64(d, index, 1).None? ==> MissingCobId(index) in WarningsFor(d, p.direction, p.number)
  {
    BuiltContents(d);
    assert PdosFor(d, p.direction, p.number) == [p];
    var index := CommIndex(p.direction, p.number);
    assert ReadU64(d, index, 1).None? ==> CobIdWarnings(d, index) == [MissingCobId(index)];
  }

  /** A PDO is built whose communication record is the one at the index. */
  ghost predicate BuiltAt(d: Dictionary, index: u16) {
    exists p :: p in BuiltPdos(d) && index == (if p.direction.Receive? then 0x1400 else 0x1800) + p.number - 1
  }

  /** A built PDO without a COB-ID is warned of, and nothing else is warned of that way. */
  lemma CobIdWarned(d: Dictionary, index: u16)
    ensures MissingCobId(index) in BuiltWarnings(d) <==>
            BuiltAt(d, index) && !exists n :: StandsAt(d, ObjectKey(index, 1), n)
  {
    ReadsWhatStands(d, index, 1);
    if MissingCobId(index) in BuiltWarnings(d) {
      CobIdWarnedOnly(d, index);
    } else if BuiltAt(d, index) {
      var p :| p in BuiltPdos(d) && index == (if p.direction.Receive? then 0x1400 else 0x1800) + p.number - 1;
      CobIdWarns(d, p);
      if ReadU64(d, index, 1).None? {
        WarnedOf(d, MissingCobId(index), p.direction, p.number);
      }
    }
  }

  lemma CobIdWarnedOnly(d: Dictionary, index: u16)
    requires MissingCobId(index) in BuiltWarnings(d)
    ensures BuiltAt(d, index) && ReadU64(d, index, 1).None?
  {
    var direction, number := WarnedSomewhere(d, MissingCobId(index));
    CobIdWarnedOf(d, direction, number, index);
  }

  lemma PdoExists(d: Dictionary, direction: Direction, number: u16)
    requires 1 <= number <= RECORDS && SignalCount(d, direction, number).Some?
    ensures exists p :: p in BuiltPdos(d) && IsPdo(p, direction, number)
  {
    RangeContents(d, direction, RECORDS);
    var p := PdosFor(d, direction, number)[0];
    assert p in RangePdos(d, direction, RECORDS);
    assert p in BuiltPdos(d) && IsPdo(p, direction, number);
  }

  lemma {:induction false} NotOfSignals(d: Dictionary, index: u16, n: u8, other: u16)
    ensures MissingCobId(other) !in SignalWarnings(d, index, n)
  {
    if n > 0 {
      NotOfSignals(d, index, n - 1, other);
    }
  }

  lemma {:induction false} SignalsWarned(d: Dictionary, index: u16, n: u8, k: ObjectKey)
    ensures MissingEntry(k) in SignalWarnings(d, index, n) <==>
            !Named(d, k) && exists s :: s in Signals(d, index, n) && s.key == k
  {
    if n > 0 {
      SignalsWarned(d, index, n - 1, k);
      var word := ReadU64(d, index, n);
      assert word.Some? ==> SignalsFor(d, index, n) == [SignalOf(d, U32(word.value))];
    }
  }

  /** A signal whose entry is missing or nameless is warned of, and nothing else is warned of that way. */
  lemma EntryWarned(d: Dictionary, k: ObjectKey)
    ensures MissingEntry(k) in BuiltWarnings(d) <==>
            !(k in d && d[k].name != "") && exists p, s :: p in BuiltPdos(d) && s in p.signals && s.key == k
  {
    var w := MissingEntry(k);
    BuiltContents(d);
    if w in BuiltWarnings(d) {
      var direction, number := WarnedSomewhere(d, w);
      SignalsWarned(d, MapIndex(direction, number), SignalCount(d, direction, number).value, k);
      PdoExists(d, direction, number);
    }
    if p, s :| p in BuiltPdos(d) && s in p.signals && s.key == k && !Named(d, k) {
      assert PdosFor(d, p.direction, p.number) == [p];
      SignalsWarned(d, MapIndex(p.direction, p.number), SignalCount(d, p.direction, p.number).value, k);
      WarnedOf(d, w, p.direction, p.number);
    }
  }

  lemma {:induction false} MissingIn(d: Dictionary, index: u16, n: u8, map': u16, sub: u8)
    ensures MissingMapping(map', sub) in SignalWarnings(d, index, n) <==>
            map' == index && 1 <= sub <= n && ReadU64(d, index, sub).None?
  {
    if n > 0 {
      MissingIn(d, index, n - 1, map', sub);
    }
  }

  /** A mapping word missing below the count is warned of, and nothing else is warned of that way. */
  lemma MappingWarned(d: Dictionary, index: u16, sub: u8)
    ensures MissingMapping(index, sub) in BuiltWarnings(d) <==>
            && (0x1600 <= index < 0x1800 || 0x1A00 <= index < 0x1C00)
            && (exists count :: StandsAt(d, ObjectKey(index, 0), count) && 1 <= sub <= count % 256)
            && !exists w :: StandsAt(d, ObjectKey(index, sub), w)
  {
    var w := MissingMapping(index, sub);
    ReadsWhatStands(d, index, 0);
    ReadsWhatStands(d, index, sub);
    if w in BuiltWarnings(d) {
      var direction, number := WarnedSomewhere(d, w);
      MissingIn(d, MapIndex(direction, number), SignalCount(d, direction, number).value, index, sub);
    }
    if 0x1600 <= index < 0x1800 || 0x1A00 <= index < 0x1C00 {
      var direction := if index < 0x1800 then Receive else Transmit;
      var number := index - MapStart(direction) + 1;
      var count := SignalCount(d, direction, number);
      if count.Some? {
        MissingIn(d, index, count.value, index, sub);
        if w in SignalWarnings(d, index, count.value) {
          WarnedOf(d, w, direction, number);
        }
      }
    }
  }
}
