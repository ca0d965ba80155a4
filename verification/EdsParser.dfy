/** EDS sections to dictionary entries. */
module EdsParser {
  import opened Types
  import opened Bits
  import opened NumberText
  import opened Model
  import opened ValueText
  import opened Simulator
  import opened EdsText

  datatype Warning = InvalidDataType(section: string) | InvalidDefaultValue(section: string)

  /** The section-name pattern: four hex digits, then optionally `sub` and one or two hex digits. */
  function ParseSectionName(name: string): Option<ObjectKey> {
    if |name| < 4 || !AllDigits(name[..4], 16) then None
    else
      HexBound4(name[..4]);
      var index := DigitsValue(name[..4], 16);
      if |name| == 4 then Some(ObjectKey(index, 0))
      else if 8 <= |name| <= 9 && name[4..7] == "sub" && AllDigits(name[7..], 16) then
        HexBound2(name[7..]);
        Some(ObjectKey(index, DigitsValue(name[7..], 16)))
      else None
  }

  lemma {:induction false} HexBound(s: string, n: nat)
    requires AllDigits(s, 16) && |s| <= n
    ensures DigitsValue(s, 16) < Pow2(4 * n)
  {
    if s != [] {
      HexBound(s[..|s| - 1], n - 1);
      FourBits(0, 4 * (n - 1));
      assert IsDigit(s[|s| - 1], 16);
    }
  }

  lemma HexBound4(s: string)
    requires AllDigits(s, 16) && |s| <= 4
    ensures DigitsValue(s, 16) < 0x1_0000
  {
    HexBound(s, 4);
    PowConstants();
  }

  lemma HexBound2(s: string)
    requires AllDigits(s, 16) && |s| <= 2
    ensures DigitsValue(s, 16) < 0x100
  {
    HexBound(s, 2);
    PowConstants();
  }

  function TypeOfCode(code: u32): DataType {
    if code == 0x01 then Boolean
    else if code == 0x02 then Integer8
    else if code == 0x03 then Integer16
    else if code == 0x04 then Integer32
    else if code == 0x15 then Integer64
    else if code == 0x05 then Unsigned8
    else if code == 0x06 then Unsigned16
    else if code == 0x07 then Unsigned32
    else if code == 0x1B then Unsigned64
    else if code == 0x08 then Real32
    else if code == 0x11 then Real64
    else if code == 0x09 then VisibleString
    else if code == 0x0A then OctetString
    else UnknownType
  }

  function AccessOfText(text: string): AccessType {
    var lower := ToLower(text);
    if lower == "ro" then ReadOnly
    else if lower == "rw" then ReadWrite
    else if lower == "wo" then WriteOnly
    else if lower == "const" then Constant
    else UnknownAccess
  }

  predicate Quoted(s: string) {
    |s| >= 2 && s[0] == '"' && s[|s| - 1] == '"'
  }

  function Unquote(s: string): string {
    if Quoted(s) then s[1..|s| - 1] else s
  }

  function ParseLiteral(text: string): Option<u64> {
    ParseU64(Trim(text))
  }

  /** An integer literal, the node number, or their sum modulo 2^64; None where the code throws. */
  function EvaluateDefault(raw: string, nodeId: u8): Option<u64> {
    var text := Trim(raw);
    var lower := ToLower(text);
    var plus := Find(lower, '+');
    if Quoted(text) then None
    else if lower == "$nodeid" then Some(nodeId)
    else if plus == |lower| then ParseLiteral(text)
    else
      var lhs, rhs := Trim(lower[..plus]), Trim(lower[plus + 1..]);
      if (lhs == "$nodeid") == (rhs == "$nodeid") then None
      else
        PlusNodeId(ParseLiteral(if lhs == "$nodeid" then rhs else lhs), nodeId)
  }

  function PlusNodeId(literal: Option<u64>, nodeId: u8): Option<u64> {
    match literal
    case None => None
    case Some(v) => Some(U64(v + nodeId))
  }

  /** static_cast from uint64_t to int64_t. */
  function AsSigned(v: u64): i64 {
    if v < 0x8000_0000_0000_0000 then v else v - 0x1_0000_0000_0000_0000
  }

  function ParseDefault(raw: string, t: DataType, nodeId: u8, reals: RealText): Option<Value> {
    var text := Trim(raw);
    if IsTextType(t) then Some(Text(Unquote(text)))
    else if IsRealType(t) then
      match reals.parse(text) case Some(x) => Some(Real(x)) case None => None
    else
      match EvaluateDefault(text, nodeId)
      case None => None
      case Some(v) =>
        Some(if t.Boolean? then Flag(v != 0) else if IsSignedType(t) then Signed(AsSigned(v)) else Unsigned(v))
  }

  // ----- One section -----

  function SectionKey(s: Section): Option<ObjectKey> {
    ParseSectionName(s.name)
  }

  function SectionType(s: Section): Option<DataType> {
    if "datatype" !in s.values then Some(UnknownType)
    else
      match ParseLiteral(s.values["datatype"])
      case None => None
      case Some(v) => Some(TypeOfCode(U32(v)))
  }

  function DefaultParser(t: DataType, nodeId: u8, reals: RealText): string -> Option<Value> {
    (raw: string) => ParseDefault(raw, t, nodeId, reals)
  }

  function DefaultOf(values: map<string, string>, parse: string -> Option<Value>): Option<Value> {
    if "defaultvalue" in values then parse(values["defaultvalue"]) else Some(Empty)
  }

  function SectionValue(s: Section, t: DataType, nodeId: u8, reals: RealText): Option<Value> {
    DefaultOf(s.values, DefaultParser(t, nodeId, reals))
  }

  /** The entry a section describes on its own. */
  function EntryOf(s: Section, k: ObjectKey, nodeId: u8, reals: RealText): OdEntry {
    var name := if "parametername" in s.values then Unquote(s.values["parametername"]) else CanonicalKey(k);
    var t := match SectionType(s) case Some(t) => t case None => UnknownType;
    var access := if "accesstype" in s.values then AccessOfText(s.values["accesstype"]) else UnknownAccess;
    var value := match SectionValue(s, t, nodeId, reals) case Some(v) => v case None => Empty;
    OdEntry(k, name, t, access, value)
  }

  function WarningsOf(s: Section, nodeId: u8, reals: RealText): seq<Warning> {
    var t := match SectionType(s) case Some(t) => t case None => UnknownType;
    (if SectionType(s).None? then [InvalidDataType(s.name)] else [])
    + if SectionValue(s, t, nodeId, reals).None? then [InvalidDefaultValue(s.name)] else []
  }

  /** The last-wins reading of a list of sections. */
  function DictionaryOf(sections: seq<Section>, nodeId: u8, reals: RealText): Dictionary {
    var last := LastWins(sections, SectionKey);
    map k | k in last :: EntryOf(last[k], k, nodeId, reals)
  }

  method ParseEntry(s: Section, k: ObjectKey, nodeId: u8, reals: RealText)
    returns (entry: OdEntry, warnings: seq<Warning>)
    ensures entry == EntryOf(s, k, nodeId, reals) && warnings == WarningsOf(s, nodeId, reals)
  {
    entry, warnings := DEFAULT_ENTRY.(key := k), [];
    if "parametername" in s.values {
      entry := entry.(name := Unquote(s.values["parametername"]));
    } else {
      entry := entry.(name := CanonicalKey(k));
    }
    if "datatype" in s.values {
      var code := ParseLiteral(s.values["datatype"]);
      if code.Some? {
        entry := entry.(dataType := TypeOfCode(U32(code.value)));
      } else {
        warnings := warnings + [InvalidDataType(s.name)];
      }
    }
    if "accesstype" in s.values {
      entry := entry.(access := AccessOfText(s.values["accesstype"]));
    }
    if "defaultvalue" in s.values {
      var value := ParseDefault(s.values["defaultvalue"], entry.dataType, nodeId, reals);
      if value.Some? {
        entry := entry.(value := value.value);
      } else {
        warnings := warnings + [InvalidDefaultValue(s.name)];
      }
    }
  }

  function AllWarnings(sections: seq<Section>, nodeId: u8, reals: RealText): seq<Warning> {
    if sections == [] then []
    else
      var s := sections[|sections| - 1];
      AllWarnings(sections[..|sections| - 1], nodeId, reals)
      + if SectionKey(s).Some? then WarningsOf(s, nodeId, reals) else []
  }

  /** One more section: its entry replaces any earlier one with its key; a section without a key adds nothing. */
  lemma DictionaryNext(sections: seq<Section>, i: nat, nodeId: u8, reals: RealText)
    requires i < |sections|
    ensures var before, key := DictionaryOf(sections[..i], nodeId, reals), SectionKey(sections[i]);
            DictionaryOf(sections[..i + 1], nodeId, reals)
            == if key.None? then before else before[key.value := EntryOf(sections[i], key.value, nodeId, reals)]
    ensures AllWarnings(sections[..i + 1], nodeId, reals)
         == AllWarnings(sections[..i], nodeId, reals)
            + if SectionKey(sections[i]).Some? then WarningsOf(sections[i], nodeId, reals) else []
  {
    assert sections[..i + 1][..i] == sections[..i];
    var last, key := LastWins(sections[..i], SectionKey), SectionKey(sections[i]);
    assert LastWins(sections[..i + 1], SectionKey) == if key.None? then last else last[key.value := sections[i]];
  }

  method ParseText(text: string, nodeId: u8, reals: RealText) returns (d: Dictionary, warnings: seq<Warning>)
    ensures d == DictionaryOf(Sections(text), nodeId, reals)
    ensures warnings == AllWarnings(Sections(text), nodeId, reals)
  {
    d, warnings := map[], [];
    var sections := ParseIniSections(text);
    for i := 0 to |sections|
      invariant d == DictionaryOf(sections[..i], nodeId, reals)
      invariant warnings == AllWarnings(sections[..i], nodeId, reals)
    {
      var s := sections[i];
      DictionaryNext(sections, i, nodeId, reals);
      var key := ParseSectionName(s.name);
      if key.None? {
        continue;
      }
      var entry, more := ParseEntry(s, key.value, nodeId, reals);
      warnings := warnings + more;
      d := d[key.value := entry];
    }
    assert sections[..|sections|] == sections;
  }

  // ----- What the parsed dictionary is -----

  /**
   A key is in the dictionary exactly when some section heading names it, and its entry is that of
   the last such section alone.
   */
  lemma LastSectionWins(sections: seq<Section>, nodeId: u8, reals: RealText, k: ObjectKey)
    ensures var d, last := DictionaryOf(sections, nodeId, reals), LastWith(sections, SectionKey, k);
            && (k in d <==> exists i :: 0 <= i < |sections| && SectionKey(sections[i]) == Some(k))
            && (k in d ==> last >= 0 && d[k] == EntryOf(sections[last], k, nodeId, reals))
  {
    LastWinsIsScan(sections, SectionKey, k);
  }

  lemma EntryIsTyped(s: Section, k: ObjectKey, nodeId: u8, reals: RealText)
    ensures var e := EntryOf(s, k, nodeId, reals); e.key == k && Compatible(e.dataType, e.value)
  {
    var t := EntryOf(s, k, nodeId, reals).dataType;
    var v := SectionValue(s, t, nodeId, reals);
    if v.Some? && "defaultvalue" in s.values {
      DefaultIsTyped(s.values["defaultvalue"], t, nodeId, reals);
    }
  }

  lemma DefaultIsTyped(raw: string, t: DataType, nodeId: u8, reals: RealText)
    requires ParseDefault(raw, t, nodeId, reals).Some?
    ensures Compatible(t, ParseDefault(raw, t, nodeId, reals).value)
  {
  }

  /** Every parsed entry sits under its own key and holds a value of its declared type. */
  lemma ParsedIsTyped(sections: seq<Section>, nodeId: u8, reals: RealText)
    ensures KeysAgree(DictionaryOf(sections, nodeId, reals))
    ensures WellTyped(DictionaryOf(sections, nodeId, reals))
  {
    var last := LastWins(sections, SectionKey);
    forall k | k in last
      ensures var e := EntryOf(last[k], k, nodeId, reals); e.key == k && Compatible(e.dataType, e.value)
    {
      EntryIsTyped(last[k], k, nodeId, reals);
    }
  }

  // ----- The documented forms of default values -----

  /** A decimal literal is its own lower-case and trimmed form. */
  lemma DecimalPlain(v: nat)
    ensures Plain(ToDecimal(v))
  {
    var s := ToDecimal(v);
    forall i | 0 <= i < |s|
      ensures LowerChar(s[i]) == s[i] && !IsSpace(s[i]) && s[i] != '+' && s[i] != '$' && s[i] != '"'
    {
      assert IsDigit(s[i], 10);
    }
    TrimPlain(s);
  }

  lemma TrimPlain(s: string)
    requires s != [] ==> !IsSpace(s[0]) && !IsSpace(s[|s| - 1])
    ensures Trim(s) == s
  {
  }

  /** A sum is cut at its first plus, with any spaces around the sides; exactly one side must be the node number. */
  lemma SplitSum(text: string, left: string, right: string, nodeId: u8)
    requires ToLower(text) == left + "+" + right && '+' !in left && !Quoted(Trim(text))
    ensures Trim(left) == "$nodeid" && Trim(right) != "$nodeid" ==>
              EvaluateDefault(text, nodeId) == PlusNodeId(ParseLiteral(right), nodeId)
    ensures Trim(left) != "$nodeid" && Trim(right) == "$nodeid" ==>
              EvaluateDefault(text, nodeId) == PlusNodeId(ParseLiteral(left), nodeId)
    ensures (Trim(left) == "$nodeid") == (Trim(right) == "$nodeid") ==> EvaluateDefault(text, nodeId) == None
  {
    var front, back := SkipSpaces(left), TrimRight(right);
    TrimLower(text);
    TrimAround(left, '+', right);
    SkippedAreSpaces(left);
    TrimAfterTrimRight(right);
    CutAtPlus(text, front, back, Trim(left), Trim(right), nodeId);
    TrimIdempotent(left);
    TrimIdempotent(right);
  }

  lemma CutAtPlus(text: string, front: string, back: string, lhs: string, rhs: string, nodeId: u8)
    requires ToLower(Trim(text)) == front + "+" + back && '+' !in front && !Quoted(Trim(text))
    requires lhs == Trim(front) && rhs == Trim(back)
    ensures lhs == "$nodeid" && rhs != "$nodeid" ==>
              EvaluateDefault(text, nodeId) == PlusNodeId(ParseLiteral(rhs), nodeId)
    ensures lhs != "$nodeid" && rhs == "$nodeid" ==>
              EvaluateDefault(text, nodeId) == PlusNodeId(ParseLiteral(lhs), nodeId)
    ensures (lhs == "$nodeid") == (rhs == "$nodeid") ==> EvaluateDefault(text, nodeId) == None
  {
    var lower := ToLower(Trim(text));
    FindIs(lower, '+', |front|);
    assert lower[..|front|] == front && lower[|front| + 1..] == back;
    assert '+' !in "$nodeid";
  }

  /**
   In any letter case and with any spaces, $NODEID, $NODEID + literal and literal + $NODEID mean
   what the documentation says, modulo 2^64, and a literal alone means itself.
   */
  lemma NodeIdForms(text: string, left: string, right: string, literal: string, nodeId: u8)
    requires Plain(literal)
    ensures Trim(ToLower(text)) == "$nodeid" ==> EvaluateDefault(text, nodeId) == Some(nodeId)
    ensures ToLower(text) == left + "+" + right && Trim(left) == "$nodeid" && Trim(right) == literal ==>
              EvaluateDefault(text, nodeId) == PlusNodeId(ParseLiteral(literal), nodeId)
    ensures ToLower(text) == left + "+" + right && Trim(left) == literal && Trim(right) == "$nodeid" ==>
              EvaluateDefault(text, nodeId) == PlusNodeId(ParseLiteral(literal), nodeId)
    ensures Trim(text) == literal ==> EvaluateDefault(text, nodeId) == ParseLiteral(literal)
  {
    LiteralAlone(text, literal, nodeId);
    NodeIdAlone(text, nodeId);
    SumsOfPlain(text, left, right, "$nodeid", literal, nodeId);
  }

  /** Every number has such a literal: its printed form. */
  lemma PrintedLiteral(v: u64)
    ensures Plain(ToDecimal(v)) && ParseLiteral(ToDecimal(v)) == Some(v)
  {
    DecimalPlain(v);
    ParsePrintedU64(v);
  }

  /** A text that is already trimmed and in lower case and holds no sign, dollar or quote. */
  predicate Plain(s: string) {
    s != [] && ToLower(s) == s && Trim(s) == s && !IsSpace(s[0]) && !IsSpace(s[|s| - 1])
    && '+' !in s && '$' !in s && '"' !in s
  }

  lemma PlainIsNotNodeId(s: string)
    requires Plain(s)
    ensures s != "$nodeid" && s[0] != '"'
  {
    assert "$nodeid"[0] == '$' && s[0] in s;
  }

  /** A character that is no space is on one side of the plus exactly when it is in the trimmed side. */
  lemma InTrimmed(s: string, c: char)
    requires !IsSpace(c)
    ensures c in s <==> c in Trim(s)
  {
    TrimRemovesSpaces(s);
    var (lo, hi) := TextSpan(s);
    if c in s {
      var i :| 0 <= i < |s| && s[i] == c;
      assert s[lo..hi][i - lo] == c;
    }
  }

  /** A text whose lower-case form has no quote in front of its plus is not quoted. */
  lemma UnquotedSum(text: string, left: string, right: string)
    requires ToLower(text) == left + "+" + right && '"' !in left
    ensures !Quoted(Trim(text))
  {
    TrimLower(text);
    TrimAround(left, '+', right);
    SkippedAreSpaces(left);
    var t, lower := Trim(text), SkipSpaces(left) + "+" + TrimRight(right);
    assert ToLower(t) == lower && lower[0] != '"';
    assert lower[0] == LowerChar(t[0]);
  }

  lemma SumsOfPlain(text: string, left: string, right: string, node: string, s: string, nodeId: u8)
    requires Plain(s) && node == "$nodeid"
    ensures ToLower(text) == left + "+" + right && Trim(left) == node && Trim(right) == s ==>
              EvaluateDefault(text, nodeId) == PlusNodeId(ParseLiteral(s), nodeId)
    ensures ToLower(text) == left + "+" + right && Trim(left) == s && Trim(right) == node ==>
              EvaluateDefault(text, nodeId) == PlusNodeId(ParseLiteral(s), nodeId)
  {
    PlainIsNotNodeId(s);
    InTrimmed(left, '+');
    InTrimmed(left, '"');
    if ToLower(text) == left + "+" + right && {Trim(left), Trim(right)} == {node, s} {
      assert Trim(left) in {node, s};
      UnquotedSum(text, left, right);
      SplitSum(text, left, right, nodeId);
      TrimIdempotent(left);
      TrimIdempotent(right);
    }
  }

  lemma NodeIdAlone(text: string, nodeId: u8)
    ensures Trim(ToLower(text)) == "$nodeid" ==> EvaluateDefault(text, nodeId) == Some(nodeId)
  {
    TrimLower(text);
    if Trim(ToLower(text)) == "$nodeid" {
      assert LowerChar(Trim(text)[0]) == '$';
    }
  }

  lemma LiteralAlone(text: string, s: string, nodeId: u8)
    requires Plain(s)
    ensures Trim(text) == s ==> EvaluateDefault(text, nodeId) == ParseLiteral(s)
  {
    PlainIsNotNodeId(s);
    assert Find(s, '+') == |s|;
  }

  /** Every key can be written as a heading that is read back as that key. */
  lemma HeadingRoundTrip(k: ObjectKey)
    ensures var hex := PadZeros(ToBase(k.index, 16), 4);
            ParseSectionName(hex + "sub" + ToBase(k.subIndex, 16)) == Some(k)
  {
    var hex, sub := PadZeros(ToBase(k.index, 16), 4), ToBase(k.subIndex, 16);
    PadZerosValue(ToBase(k.index, 16), 4, 16);
    ToBaseValue(k.index, 16);
    ToBaseValue(k.subIndex, 16);
    PowConstants();
    ToBaseLength(k.index, 4);
    ToBaseLength(k.subIndex, 2);
    PadZerosLength(ToBase(k.index, 16), 4);
    var name := hex + "sub" + sub;
    assert name[..4] == hex && name[4..7] == "sub" && name[7..] == sub;
  }

  lemma {:induction false} ToBaseLength(n: nat, digits: nat)
    requires digits > 0 && n < Pow2(4 * digits)
    ensures |ToBase(n, 16)| <= digits
  {
    if n >= 16 {
      assert digits > 1 by {
        assert Pow2(4) == 16 by { FourBits(0, 0); }
      }
      FourBits(0, 4 * (digits - 1));
      ToBaseLength(n / 16, digits - 1);
    }
  }

  lemma {:induction false} PadZerosLength(s: string, width: nat)
    requires |s| <= width
    ensures |PadZeros(s, width)| == width
    decreases width - |s|
  {
    if |s| < width {
      PadZerosLength("0" + s, width);
    }
  }
}
