/** CAN frames, the COB-ID windows the dispatcher distinguishes, and the frames a set of TPDOs produces. */
module Frames {
  import opened Types
  import opened Bits
  import opened Model
  import opened Simulator
  import opened PdoCodec
  import opened Walks

  const SFF_MASK: u32 := 0x7FF
  const SYNC_COB_ID: u32 := 0x80
  const EMCY_BASE_COB_ID: u32 := 0x80
  const HEARTBEAT_BASE_COB_ID: u32 := 0x700
  const NMT_COB_ID: u32 := 0

  datatype Frame = Frame(canId: nat, data: seq<u8>, dlc: nat)

  /** One write system call: the frame handed over and whether the kernel took it whole. */
  datatype Write = Write(frame: Frame, ok: bool)

  function Mask(canId: nat): nat {
    And(canId, SFF_MASK)
  }

  lemma MaskIsRemainder(canId: nat)
    ensures Mask(canId) == canId % 0x800
  {
    PowByte(3);
    assert Pow2(3) == 8;
    AndLow(canId, 11);
    LowIsRemainder(canId, 11);
  }

  function Zeros(n: nat): (z: seq<u8>)
    ensures |z| == n
  {
    seq(n, _ => 0)
  }

  /** The frame for a payload: the identifier masked to 11 bits, the data padded with zeros. */
  function MakeFrame(canId: nat, payload: seq<u8>): (f: Frame)
    requires |payload| <= CAN_MAX_DATA_LEN
    ensures |f.data| == CAN_MAX_DATA_LEN && f.dlc == |payload| && f.data[..f.dlc] == payload
  {
    Frame(Mask(canId), payload + Zeros(CAN_MAX_DATA_LEN - |payload|), |payload|)
  }

  // ----- Dispatch -----

  datatype Service = Sync | Heartbeat(node: nat) | Emcy(node: nat) | Process

  /** The 0x780 mask rounds an 11-bit identifier down to a multiple of 128. */
  function Window(canId: nat): (w: nat)
    requires canId < 0x800
    ensures w == canId - canId % 128
  {
    WindowIsMultiple(canId);
    And(canId, 0x780)
  }

  lemma WindowIsMultiple(canId: nat)
    requires canId < 0x800
    ensures And(canId, 0x780) == canId / 128 * 128
  {
    var field := canId / 128;
    assert Pow2(4) == 16;
    assert Shl(15, 7) == 0x780 && Shl(field, 7) == 128 * field && Shr(canId, 7) == field by {
      SevenBits(15);
      SevenBits(field);
      SevenBits(canId);
    }
    LowOfSmall(field, 4);
    AndWindow(canId, 4, 7);
  }

  /** The branch the receive path takes on an 11-bit identifier. */
  function Classify(canId: nat): Service
    requires canId < 0x800
  {
    if canId == SYNC_COB_ID then Sync
    else if Window(canId) == HEARTBEAT_BASE_COB_ID then Heartbeat(U8(canId - HEARTBEAT_BASE_COB_ID))
    else if Window(canId) == EMCY_BASE_COB_ID then Emcy(U8(canId - EMCY_BASE_COB_ID))
    else Process
  }

  lemma SevenBits(x: nat)
    ensures Shl(x, 7) == 128 * x && Shr(x, 7) == x / 128
  {
    FourBits(x, 3);
    assert Shl(x, 0) == x && Shl(x, 1) == 2 * x && Shl(x, 3) == 4 * Shl(x, 1);
    var y := x / 16;
    assert Shr(y, 3) == Shr(y / 4, 1) && Shr(y / 4, 1) == Shr(y / 8, 0);
  }

  lemma WindowIs(canId: nat, block: nat)
    requires canId < 0x800
    ensures Window(canId) == 128 * block <==> 128 * block <= canId < 128 * block + 128
  {
    RoundedDown(canId, block);
  }

  lemma RoundedDown(x: nat, block: nat)
    ensures x - x % 128 == 128 * block <==> 128 * block <= x < 128 * block + 128
  {
  }

  /** The windows: SYNC is one identifier, EMCY and heartbeat are 127 and 128 identifiers, PDO is the rest. */
  lemma ClassifyByRange(canId: nat)
    requires canId < 0x800
    ensures Classify(canId) ==
            if canId == 0x80 then Sync
            else if 0x80 < canId < 0x100 then Emcy(canId - 0x80)
            else if 0x700 <= canId < 0x780 then Heartbeat(canId - 0x700)
            else Process
  {
    WindowIs(canId, 14);
    WindowIs(canId, 1);
  }

  lemma MaskOfSmall(canId: nat)
    requires canId < 0x800
    ensures Mask(canId) == canId
  {
    MaskIsRemainder(canId);
    OwnRemainder(canId);
  }

  lemma OwnRemainder(x: nat)
    requires x < 0x800
    ensures x % 0x800 == x
  {
  }

  /** Adding a node number to a base stays within 11 bits. */
  lemma MaskKeepsBase(base: u32, node: u8)
    requires base <= 0x700
    ensures Mask(base + node) == base + node
  {
    MaskOfSmall(base + node);
  }

  /** A heartbeat is recognised as the sender's exactly for node numbers up to 127. */
  lemma HeartbeatClassifiesBackIff(node: u8)
    ensures Mask(HEARTBEAT_BASE_COB_ID + node) < 0x800
    ensures Classify(Mask(HEARTBEAT_BASE_COB_ID + node)) == Heartbeat(node) <==> node <= 127
  {
    MaskKeepsBase(HEARTBEAT_BASE_COB_ID, node);
    ClassifyByRange(HEARTBEAT_BASE_COB_ID + node);
  }

  /** An emergency is recognised as the sender's exactly for nodes 1 to 127; node 0's is taken for SYNC. */
  lemma EmcyClassifiesBackIff(node: u8)
    ensures Mask(EMCY_BASE_COB_ID + node) < 0x800
    ensures Classify(Mask(EMCY_BASE_COB_ID + node)) == Emcy(node) <==> 1 <= node <= 127
    ensures node == 0 ==> Classify(Mask(EMCY_BASE_COB_ID + node)) == Sync
  {
    MaskKeepsBase(EMCY_BASE_COB_ID, node);
    ClassifyByRange(EMCY_BASE_COB_ID + node);
  }

  // ----- Transmission types -----

  predicate IsSynchronous(transmissionType: u8) {
    1 <= transmissionType <= 240
  }

  predicate IsAsynchronous(transmissionType: u8) {
    transmissionType == 254 || transmissionType == 255
  }

  /** PDOs the SYNC route serves. */
  predicate OnSync(pdo: Pdo) {
    IsSynchronous(pdo.communication.transmissionType)
  }

  /** PDOs the timer route serves. */
  predicate OnTimer(pdo: Pdo) {
    IsAsynchronous(pdo.communication.transmissionType) && pdo.communication.eventTimer > 0
  }

  // ----- What a node's TPDOs put on the wire -----

  type TpdoMap = map<u16, Pdo>

  /** The frame SendTpdo builds for a number, or why it builds none. */
  function TpdoFrame(tpdos: TpdoMap, d: Dictionary, table: PdoTable, number: u16): Result<Frame> {
    if number !in tpdos then Err(TpdoMissing)
    else
      match Payload(d, table, tpdos[number])
      case Err(e) => Err(e)
      case Ok(payload) => Ok(MakeFrame(tpdos[number].communication.cobId, payload))
  }

  /** What visiting a TPDO produces: one frame if it encodes, none otherwise. */
  function Encoding(tpdos: TpdoMap, d: Dictionary, table: PdoTable): u16 -> seq<Frame> {
    (number: u16) =>
      match TpdoFrame(tpdos, d, table, number)
      case Ok(f) => [f]
      case Err(_) => []
  }

  /** The frames a walk over the numbers hands to the kernel: none while the socket is closed. */
  function Emitted(open: bool, tpdos: TpdoMap, d: Dictionary, table: PdoTable, order: seq<u16>): seq<Frame> {
    if open then FlatMap(Encoding(tpdos, d, table), order) else []
  }

  function FrameOf(): Write -> seq<Frame> {
    (w: Write) => [w.frame]
  }

  /** The frames of a log of writes, in order. */
  function FramesOf(writes: seq<Write>): seq<Frame> {
    FlatMap(FrameOf(), writes)
  }

  /** One more number at the end of a walk. */
  lemma EmittedNext(open: bool, tpdos: TpdoMap, d: Dictionary, table: PdoTable, order: seq<u16>, n: u16,
                    sent: seq<Write>, more: seq<Write>)
    requires FramesOf(sent) == Emitted(open, tpdos, d, table, order)
    requires FramesOf(more) == Emitted(open, tpdos, d, table, [n])
    ensures FramesOf(sent + more) == Emitted(open, tpdos, d, table, order + [n])
  {
    FlatMapAppend(FrameOf(), sent, more);
    FlatMapAppend(Encoding(tpdos, d, table), order, [n]);
  }

  /** Whatever order the hash map yields the same TPDOs in, the same bag of frames is sent. */
  lemma EmittedOrderFree(open: bool, tpdos: TpdoMap, d: Dictionary, table: PdoTable,
                         a: seq<u16>, b: seq<u16>, numbers: set<u16>)
    requires Enumerates(a, numbers) && Enumerates(b, numbers)
    ensures multiset(Emitted(open, tpdos, d, table, a)) == multiset(Emitted(open, tpdos, d, table, b))
  {
    OrderFree(Encoding(tpdos, d, table), a, b, numbers);
  }

  /** A TPDO that encodes is among the frames of any walk that visits it, whatever the others do. */
  lemma FailureSuppressesNothing(tpdos: TpdoMap, d: Dictionary, table: PdoTable, order: seq<u16>, n: u16)
    requires n in order && TpdoFrame(tpdos, d, table, n).Ok?
    ensures TpdoFrame(tpdos, d, table, n).value in Emitted(true, tpdos, d, table, order)
  {
    var i :| 0 <= i < |order| && order[i] == n;
    BagWithout(Encoding(tpdos, d, table), order, i);
    BagOfOutputs(Encoding(tpdos, d, table), order);
    var frames := FlatMap(Encoding(tpdos, d, table), order);
    var f := TpdoFrame(tpdos, d, table, n).value;
    assert Encoding(tpdos, d, table)(n) == [f];
    assert f in multiset([f]);
    assert f in multiset(frames);
  }

  /** The frames of a walk are those of the TPDOs on it that encode. */
  lemma {:induction false} EmittedExactly(tpdos: TpdoMap, d: Dictionary, table: PdoTable, order: seq<u16>)
    ensures forall f :: f in Emitted(true, tpdos, d, table, order) <==>
              exists n :: n in order && TpdoFrame(tpdos, d, table, n) == Ok(f)
  {
    if order != [] {
      var front, last := order[..|order| - 1], order[|order| - 1];
      EmittedExactly(tpdos, d, table, front);
      assert order == front + [last];
      assert Emitted(true, tpdos, d, table, order)
          == Emitted(true, tpdos, d, table, front) + Encoding(tpdos, d, table)(last);
    }
  }
}
