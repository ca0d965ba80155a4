/** Object-dictionary entries, PDO definitions, values, and object keys as text. */
module Model {
  import opened Types
  import opened Bits
  import opened NumberText

  datatype DataType =
    | UnknownType
    | Boolean
    | Integer8 | Integer16 | Integer32 | Integer64
    | Unsigned8 | Unsigned16 | Unsigned32 | Unsigned64
    | Real32 | Real64
    | VisibleString | OctetString

  datatype AccessType = ReadOnly | ReadWrite | WriteOnly | Constant | UnknownAccess

  /** A C++ double, kept as its opaque 64-bit pattern. */
  datatype Double = Double(pattern: u64)

  datatype Value =
    | Empty
    | Flag(flag: bool)
    | Signed(signed: i64)
    | Unsigned(unsigned: u64)
    | Real(double: Double)
    | Text(text: string)

  datatype ObjectKey = ObjectKey(index: u16, subIndex: u8)

  datatype OdEntry = OdEntry(key: ObjectKey, name: string, dataType: DataType, access: AccessType, value: Value)

  type Dictionary = map<ObjectKey, OdEntry>

  const DEFAULT_ENTRY := OdEntry(ObjectKey(0, 0), "", UnknownType, UnknownAccess, Empty)

  datatype Signal = Signal(key: ObjectKey, bitLength: u8, name: string)

  datatype Direction = Receive | Transmit

  datatype Communication = Communication(cobId: u32, transmissionType: u8, inhibitTime: u16, eventTimer: u16)

  const DEFAULT_COMMUNICATION := Communication(0, 255, 0, 0)

  datatype Pdo = Pdo(direction: Direction, number: u16, communication: Communication, signals: seq<Signal>)

  predicate IsSignedType(t: DataType) {
    t.Integer8? || t.Integer16? || t.Integer32? || t.Integer64?
  }

  predicate IsUnsignedType(t: DataType) {
    t.Unsigned8? || t.Unsigned16? || t.Unsigned32? || t.Unsigned64?
  }

  predicate IsRealType(t: DataType) {
    t.Real32? || t.Real64?
  }

  predicate IsTextType(t: DataType) {
    t.VisibleString? || t.OctetString?
  }

  predicate Compatible(t: DataType, v: Value) {
    v.Empty? ||
    if t.Boolean? then v.Flag?
    else if IsSignedType(t) then v.Signed?
    else if IsUnsignedType(t) then v.Unsigned?
    else if IsRealType(t) then v.Real?
    else if IsTextType(t) then v.Text?
    else true
  }

  function ValueToU64(v: Value): Option<u64> {
    match v
    case Unsigned(u) => Some(u)
    case Signed(i) => if i < 0 then None else Some(i)
    case Flag(b) => Some(if b then 1 else 0)
    case _ => None
  }

  /** A value stands for n: an unsigned or non-negative signed n, or a boolean as 1 or 0. */
  ghost predicate StandsFor(v: Value, n: int) {
    || (v.Unsigned? && v.unsigned == n)
    || (v.Signed? && v.signed == n && n >= 0)
    || (v.Flag? && n == if v.flag then 1 else 0)
  }

  /** Values are read as the integer they stand for, and not at all when they stand for none. */
  lemma ReadAsInteger(v: Value)
    ensures forall n: u64 :: ValueToU64(v) == Some(n) <==> StandsFor(v, n)
    ensures ValueToU64(v).None? <==> !exists n :: StandsFor(v, n)
    ensures ValueToU64(v).None? <==> v.Empty? || v.Real? || v.Text? || (v.Signed? && v.signed < 0)
  {
    if v.Unsigned? {
      assert StandsFor(v, v.unsigned);
    } else if v.Signed? && v.signed >= 0 {
      assert StandsFor(v, v.signed);
    } else if v.Flag? {
      assert StandsFor(v, if v.flag then 1 else 0);
    }
  }

  // ----- Keys -----

  function HashKey(key: ObjectKey): nat {
    Or(U32(Shl(key.index, 8)), key.subIndex)
  }

  /** The hash of a key is perfect: it packs index and sub-index without overlap. */
  lemma HashKeyPacks(key: ObjectKey)
    ensures HashKey(key) == key.index * 256 + key.subIndex
    ensures HashKey(key) / 256 == key.index && HashKey(key) % 256 == key.subIndex
  {
    var high := Shl(key.index, 8);
    assert high == 256 * key.index by {
      ShlByte(key.index, 0);
    }
    assert U32(high) == high;
    OrCommutes(high, key.subIndex);
    PowConstants();
    OrDisjoint(key.subIndex, key.index, 8);
  }

  function CanonicalKey(key: ObjectKey): string {
    "0x" + PadZeros(ToBase(key.index, 16), 4) + ":" + ToDecimal(key.subIndex)
  }

  /** std::string::find of one character; the length when it is absent. */
  function Find(s: string, c: char): (n: nat)
    ensures n <= |s| && (forall i :: 0 <= i < n ==> s[i] != c) && (n < |s| ==> s[n] == c)
  {
    if s == [] || s[0] == c then 0 else 1 + Find(s[1..], c)
  }

  function ParseCanonicalKey(text: string): Option<ObjectKey> {
    var colon := Find(text, ':');
    if colon == |text| then None
    else
      match (ParseU64(text[..colon]), ParseU64(text[colon + 1..]))
      case (Some(index), Some(sub)) => Some(ObjectKey(U16(index), U8(sub)))
      case _ => None
  }

  lemma FindIs(s: string, c: char, n: nat)
    requires n < |s| && s[n] == c && forall i :: 0 <= i < n ==> s[i] != c
    ensures Find(s, c) == n
  {
  }

  lemma NoColon(s: string, base: nat)
    requires AllDigits(s, base)
    ensures forall i :: 0 <= i < |s| ==> s[i] != ':'
  {
    assert DigitOf(':') == -1;
  }

  lemma ParseSplitKey(left: string, right: string, key: ObjectKey)
    requires forall i :: 0 <= i < |left| ==> left[i] != ':'
    requires ParseU64(left) == Some(key.index) && ParseU64(right) == Some(key.subIndex)
    ensures ParseCanonicalKey(left + ":" + right) == Some(key)
  {
    var text := left + ":" + right;
    FindIs(text, ':', |left|);
    assert text[..|left|] == left && text[|left| + 1..] == right;
  }

  /** Every key is read back from its canonical text. */
  lemma CanonicalKeyRoundTrip(key: ObjectKey)
    ensures ParseCanonicalKey(CanonicalKey(key)) == Some(key)
  {
    var digits := PadZeros(ToBase(key.index, 16), 4);
    PadZerosValue(ToBase(key.index, 16), 4, 16);
    NoColon(digits, 16);
    ParsePaddedHex(key.index, 4);
    ParsePrintedU64(key.subIndex);
    ParseSplitKey("0x" + digits, ToDecimal(key.subIndex), key);
  }

  /** Any two integers around a colon name a key: the first modulo 65536, the second modulo 256. */
  lemma KeysAreCut(index: u64, sub: u64)
    ensures ParseCanonicalKey(ToDecimal(index) + ":" + ToDecimal(sub)) == Some(ObjectKey(index % 65536, sub % 256))
  {
    var left, right := ToDecimal(index), ToDecimal(sub);
    NoColon(left, 10);
    ParsePrintedU64(index);
    ParsePrintedU64(sub);
    var text := left + ":" + right;
    FindIs(text, ':', |left|);
    assert text[..|left|] == left && text[|left| + 1..] == right;
  }

  // ----- Dictionaries -----

  predicate Writable(access: AccessType) {
    !access.ReadOnly? && !access.Constant?
  }

  predicate KeysAgree(d: Dictionary) {
    forall k :: k in d ==> d[k].key == k
  }

  predicate WellTyped(d: Dictionary) {
    forall k :: k in d ==> Compatible(d[k].dataType, d[k].value)
  }

  /** The entry at k takes value v; nothing else changes. */
  function Store(d: Dictionary, k: ObjectKey, v: Value): Dictionary
    requires k in d
  {
    d[k := d[k].(value := v)]
  }

  /** Whether a write of v to key k is accepted. */
  predicate Accepts(d: Dictionary, k: ObjectKey, v: Value) {
    k in d && Writable(d[k].access) && Compatible(d[k].dataType, v)
  }

  /** Every type takes the empty value; each type takes one other kind, and the unknown type takes all. */
  ghost predicate TakesKind(t: DataType, v: Value) {
    match t
    case Boolean => v.Empty? || v.Flag?
    case Integer8 | Integer16 | Integer32 | Integer64 => v.Empty? || v.Signed?
    case Unsigned8 | Unsigned16 | Unsigned32 | Unsigned64 => v.Empty? || v.Unsigned?
    case Real32 | Real64 => v.Empty? || v.Real?
    case VisibleString | OctetString => v.Empty? || v.Text?
    case UnknownType => true
  }

  /**
   A write is accepted exactly for an existing entry that is read-write, write-only or of unknown
   access, and a value of the kind its type takes; otherwise the first reason in that order is given.
   */
  lemma AcceptedIff(d: Dictionary, k: ObjectKey, v: Value)
    ensures Accepts(d, k, v) <==>
            && k in d && (d[k].access.ReadWrite? || d[k].access.WriteOnly? || d[k].access.UnknownAccess?)
            && TakesKind(d[k].dataType, v)
    ensures !Accepts(d, k, v) ==>
              RefusalError(d, k, v) ==
              if k !in d then EntryMissing
              else if d[k].access.ReadOnly? || d[k].access.Constant? then EntryNotWritable
              else TypeMismatch
  {
  }

  function RefusalError(d: Dictionary, k: ObjectKey, v: Value): Error
    requires !Accepts(d, k, v)
  {
    if k !in d then EntryMissing
    else if !Writable(d[k].access) then EntryNotWritable
    else TypeMismatch
  }
}
