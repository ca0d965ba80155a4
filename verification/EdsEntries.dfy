/** What the parser makes of a written EDS file: the entry each section describes, in the file's own terms. */
module EdsEntries {
  import opened Types
  import opened NumberText
  import opened Bits
  import opened Model
  import opened ValueText
  import opened EdsText
  import opened EdsParser
  import opened EdsWriting

  // ----- Headings -----

  /** A hexadecimal digit in either case, by its code, or -1. */
  function HexCode(c: char): int {
    var code := c as int;
    if 48 <= code <= 57 then code - 48
    else if 65 <= code <= 70 then code - 55
    else if 97 <= code <= 102 then code - 87
    else -1
  }

  predicate IsHex(s: string) {
    forall i :: 0 <= i < |s| ==> HexCode(s[i]) >= 0
  }

  /** Four hex digits name the index; sub and one or two hex digits behind them name the sub-index, otherwise 0. */
  predicate Names(name: string, k: ObjectKey) {
    && |name| >= 4 && IsHex(name[..4])
    && k.index == 4096 * HexCode(name[0]) + 256 * HexCode(name[1]) + 16 * HexCode(name[2]) + HexCode(name[3])
    && (|| (|name| == 4 && k.subIndex == 0)
        || (|name| == 8 && name[4..7] == "sub" && IsHex(name[7..]) && k.subIndex == HexCode(name[7]))
        || (|name| == 9 && name[4..7] == "sub" && IsHex(name[7..])
            && k.subIndex == 16 * HexCode(name[7]) + HexCode(name[8])))
  }

  lemma HexIsDigit(c: char)
    ensures IsDigit(c, 16) <==> HexCode(c) >= 0
    ensures HexCode(c) >= 0 ==> HexCode(c) == DigitOf(c)
  {
  }

  lemma HexAreDigits(s: string)
    ensures AllDigits(s, 16) <==> IsHex(s)
  {
    forall i | 0 <= i < |s|
      ensures IsDigit(s[i], 16) <==> HexCode(s[i]) >= 0
    {
      HexIsDigit(s[i]);
    }
  }

  lemma DigitsOne(s: string)
    requires |s| == 1 && IsHex(s)
    ensures AllDigits(s, 16) && DigitsValue(s, 16) == HexCode(s[0])
  {
    HexAreDigits(s);
    HexIsDigit(s[0]);
    assert s[..0] == [];
  }

  lemma DigitsMore(s: string)
    requires |s| > 1 && IsHex(s)
    ensures AllDigits(s, 16) && AllDigits(s[..|s| - 1], 16)
    ensures DigitsValue(s, 16) == 16 * DigitsValue(s[..|s| - 1], 16) + HexCode(s[|s| - 1])
  {
    HexAreDigits(s);
    HexIsDigit(s[|s| - 1]);
  }

  lemma DigitsTwo(s: string)
    requires |s| == 2 && IsHex(s)
    ensures AllDigits(s, 16) && DigitsValue(s, 16) == 16 * HexCode(s[0]) + HexCode(s[1])
  {
    DigitsMore(s);
    DigitsOne(s[..1]);
  }

  lemma DigitsFour(s: string)
    requires |s| == 4 && IsHex(s)
    ensures AllDigits(s, 16)
    ensures DigitsValue(s, 16) == 4096 * HexCode(s[0]) + 256 * HexCode(s[1]) + 16 * HexCode(s[2]) + HexCode(s[3])
  {
    DigitsMore(s);
    DigitsMore(s[..3]);
    assert s[..3][..2] == s[..2];
    DigitsTwo(s[..2]);
  }

  /** A heading is recognised exactly as the key it names, and any other heading as none. */
  lemma RecognisedIff(name: string, k: ObjectKey)
    ensures ParseSectionName(name) == Some(k) <==> Names(name, k)
  {
    if |name| >= 4 {
      HexAreDigits(name[..4]);
      if IsHex(name[..4]) {
        DigitsFour(name[..4]);
      }
      if |name| > 7 {
        HexAreDigits(name[7..]);
        if |name| == 8 && IsHex(name[7..]) {
          DigitsOne(name[7..]);
        }
        if |name| == 9 && IsHex(name[7..]) {
          DigitsTwo(name[7..]);
        }
      }
    }
  }

  /** The canonical text of a key: 0x, four capital hex digits of the index, a colon, the sub-index in decimal. */
  lemma CanonicalByCode(k: ObjectKey)
    ensures var t := CanonicalKey(k);
            && |t| > 7 && t[..2] == "0x" && t[6] == ':'
            && (forall i :: 2 <= i < 6 ==> IsCapitalHex(t[i]))
            && k.index == 4096 * HexCode(t[2]) + 256 * HexCode(t[3]) + 16 * HexCode(t[4]) + HexCode(t[5])
            && IsDecimal(t[7..], k.subIndex)
  {
    var hex, sub := PadZeros(ToBase(k.index, 16), 4), ToDecimal(k.subIndex);
    PowConstants();
    ToBaseLength(k.index, 4);
    PadZerosLength(ToBase(k.index, 16), 4);
    PadZerosValue(ToBase(k.index, 16), 4, 16);
    ToBaseValue(k.index, 16);
    PrintedHexByCode(k.index);
    PaddedHexByCode(ToBase(k.index, 16), 4);
    HexAreDigits(hex);
    DigitsFour(hex);
    PrintedByCode(k.subIndex);
    CanonicalPieces(k, hex, sub);
  }

  lemma CanonicalPieces(k: ObjectKey, hex: string, sub: string)
    requires hex == PadZeros(ToBase(k.index, 16), 4) && |hex| == 4 && sub == ToDecimal(k.subIndex)
    ensures var t := CanonicalKey(k);
            |t| == 7 + |sub| && t[..2] == "0x" && t[2..6] == hex && t[6] == ':' && t[7..] == sub
    ensures forall i :: 2 <= i < 6 ==> CanonicalKey(k)[i] == hex[i - 2]
  {
    var t := "0x" + hex + ":" + sub;
    assert CanonicalKey(k) == t;
    assert t[2..6] == hex;
  }

  // ----- Numbers in any letter case -----

  predicate SameLetters(a: string, b: string) {
    |a| == |b| && forall i :: 0 <= i < |a| ==> IsCased(a[i], b[i]) || IsCased(b[i], a[i])
  }

  lemma SameDigit(a: char, b: char)
    requires IsCased(a, b) || IsCased(b, a)
    ensures DigitOf(a) == DigitOf(b) && IsSpace(a) == IsSpace(b)
    ensures (a == '-') == (b == '-') && (a == '+') == (b == '+') && (a == '0') == (b == '0')
    ensures (a == 'x' || a == 'X') == (b == 'x' || b == 'X')
  {
  }

  lemma {:induction false} SameSkip(a: string, b: string)
    requires SameLetters(a, b)
    ensures SameLetters(SkipSpaces(a), SkipSpaces(b))
  {
    if a != [] {
      SameDigit(a[0], b[0]);
      SameSkip(a[1..], b[1..]);
    }
  }

  lemma {:induction false} SameRun(a: string, b: string, base: nat)
    requires SameLetters(a, b)
    ensures DigitRun(a, base) == DigitRun(b, base)
  {
    if a != [] {
      SameDigit(a[0], b[0]);
      SameRun(a[1..], b[1..], base);
    }
  }

  lemma {:induction false} SameValue(a: string, b: string, base: nat)
    requires SameLetters(a, b) && AllDigits(a, base) && AllDigits(b, base)
    ensures DigitsValue(a, base) == DigitsValue(b, base)
  {
    if a != [] {
      SameDigit(a[|a| - 1], b[|b| - 1]);
      SameValue(a[..|a| - 1], b[..|b| - 1], base);
    }
  }

  lemma SameBase(a: string, b: string)
    requires SameLetters(a, b)
    ensures DetectBase(a).0 == DetectBase(b).0 && SameLetters(DetectBase(a).1, DetectBase(b).1)
  {
    if |a| >= 1 { SameDigit(a[0], b[0]); }
    if |a| >= 2 { SameDigit(a[1], b[1]); }
    if |a| >= 3 { SameDigit(a[2], b[2]); }
  }

  /** Letter case makes no difference to a number. */
  lemma SameNumber(a: string, b: string)
    requires SameLetters(a, b)
    ensures ScanInteger(a) == ScanInteger(b) && ParseU64(a) == ParseU64(b)
  {
    var t, u := SkipSpaces(a), SkipSpaces(b);
    SameSkip(a, b);
    if t != [] { SameDigit(t[0], u[0]); }
    var signed := t != [] && (t[0] == '-' || t[0] == '+');
    var v, w := if signed then t[1..] else t, if signed then u[1..] else u;
    SameBase(v, w);
    SameDigits(DetectBase(v).1, DetectBase(w).1, DetectBase(v).0);
  }

  lemma SameDigits(a: string, b: string, base: nat)
    requires SameLetters(a, b)
    ensures var n := DigitRun(a, base);
            DigitRun(b, base) == n && DigitsValue(a[..n], base) == DigitsValue(b[..n], base)
  {
    var n := DigitRun(a, base);
    SameRun(a, b, base);
    SameValue(a[..n], b[..n], base);
  }

  // ----- Integers as defaults -----

  function PrintedHex(n: nat, width: nat): string {
    "0x" + PadZeros(ToBase(n, 16), width)
  }

  /** A decimal numeral, or a hexadecimal one behind 0x with any zeros and in any letter case. */
  ghost predicate IsNumeral(text: string, n: nat) {
    text == ToDecimal(n) || exists width: nat :: SameLetters(text, PrintedHex(n, width))
  }

  /** A character that neither separates, quotes, comments nor adds. */
  predicate IsInert(c: char) {
    !IsBlank(c) && c != '+' && c != '$' && c != '"' && c != ';' && c != '#'
  }

  predicate Inert(s: string) {
    s != [] && forall i :: 0 <= i < |s| ==> IsInert(s[i])
  }

  lemma DigitIsInert(c: char, base: nat)
    requires IsDigit(c, base)
    ensures IsInert(c)
  {
  }

  lemma DigitsAreInert(s: string, base: nat)
    requires AllDigits(s, base) && s != []
    ensures Inert(s)
  {
    forall i | 0 <= i < |s|
      ensures IsInert(s[i])
    {
      DigitIsInert(s[i], base);
    }
  }

  lemma CasedIsInert(a: char, b: char)
    requires (IsCased(a, b) || IsCased(b, a)) && IsInert(b)
    ensures IsInert(a)
  {
  }

  lemma SameLettersInert(a: string, b: string)
    requires SameLetters(a, b) && Inert(b)
    ensures Inert(a)
  {
    forall i | 0 <= i < |a|
      ensures IsInert(a[i])
    {
      CasedIsInert(a[i], b[i]);
    }
  }

  lemma HexPrinted(n: u64, width: nat)
    ensures Inert(PrintedHex(n, width)) && ParseU64(PrintedHex(n, width)) == Some(n)
  {
    PadZerosValue(ToBase(n, 16), width, 16);
    DigitsAreInert(PadZeros(ToBase(n, 16), width), 16);
    ParsePaddedHex(n, width);
  }

  lemma NumeralRead(text: string, n: u64)
    requires IsNumeral(text, n)
    ensures Inert(text) && ParseU64(text) == Some(n)
  {
    if text == ToDecimal(n) {
      DigitsAreInert(text, 10);
      ParsePrintedU64(n);
    } else {
      var width: nat :| SameLetters(text, PrintedHex(n, width));
      HexPrinted(n, width);
      SameNumber(text, PrintedHex(n, width));
      SameLettersInert(text, PrintedHex(n, width));
    }
  }

  lemma LowerIsSame(s: string)
    ensures SameLetters(ToLower(s), s) && ToLower(ToLower(s)) == ToLower(s)
  {
  }

  lemma LowerIsInert(s: string)
    requires Inert(s)
    ensures Plain(ToLower(s))
  {
    LowerIsSame(s);
    SameLettersInert(ToLower(s), s);
    var t := ToLower(s);
    forall i | 0 <= i < |t|
      ensures !IsSpace(t[i]) && t[i] != '+' && t[i] != '$' && t[i] != '"'
    {
      assert IsInert(t[i]);
    }
    TrimPlain(t);
  }

  /** A text without separators, quotes and signs in between is read as a number. */
  lemma LiteralRead(text: string, nodeId: u8)
    requires Inert(text)
    ensures EvaluateDefault(text, nodeId) == ParseU64(text)
  {
    LowerIsInert(text);
    PlainIsNotNodeId(ToLower(text));
    assert IsInert(text[0]) && IsInert(text[|text| - 1]);
    TrimPlain(text);
    assert Find(ToLower(text), '+') == |text|;
  }

  /** The node number and a numeral around a plus, in either order, with any blanks around the plus. */
  ghost predicate IsSum(text: string, node: string, gap: string, space: string, literal: string, m: u64) {
    && Spells(node, "$nodeid") && Blanks(gap) && Blanks(space) && IsNumeral(literal, m)
    && (text == node + gap + "+" + (space + literal) || text == literal + gap + "+" + (space + node))
  }

  lemma LowerConcat(a: string, b: string)
    ensures ToLower(a + b) == ToLower(a) + ToLower(b)
  {
  }

  lemma LowerSum(a: string, b: string)
    ensures ToLower(a + "+" + b) == ToLower(a) + "+" + ToLower(b)
  {
    LowerConcat(a + "+", b);
    LowerConcat(a, "+");
    assert ToLower("+") == "+";
  }

  /** The lower-case sides of a sum, trimmed. */
  lemma SideTrimmed(side: string, gap: string, space: string)
    requires Blanks(gap) && Blanks(space) && side != [] && IsTidy(side)
    ensures Trim(ToLower(side + gap)) == ToLower(side) && Trim(ToLower(space + side)) == ToLower(side)
  {
    BlanksAreSpaces(gap);
    BlanksAreSpaces(space);
    TrimIs("", side, gap);
    assert "" + side + gap == side + gap;
    TrimIs(space, side, "");
    assert space + side + "" == space + side;
    TrimLower(side + gap);
    TrimLower(space + side);
  }

  lemma NodeIsTidy(node: string)
    requires Spells(node, "$nodeid")
    ensures node != [] && IsTidy(node) && ToLower(node) == "$nodeid"
  {
    assert IsCased(node[0], '$') && IsCased(node[6], 'd');
    LowerSpells(node, "$nodeid");
  }

  /** A sum in lower case, cut at its plus, and the trimmed sides. */
  lemma SumSides(first: string, gap: string, space: string, second: string)
    requires Blanks(gap) && Blanks(space) && first != [] && IsTidy(first) && second != [] && IsTidy(second)
    ensures ToLower(first + gap + "+" + (space + second)) == ToLower(first + gap) + "+" + ToLower(space + second)
    ensures Trim(ToLower(first + gap)) == ToLower(first) && Trim(ToLower(space + second)) == ToLower(second)
  {
    SideTrimmed(first, gap, space);
    SideTrimmed(second, gap, space);
    LowerSum(first + gap, space + second);
  }

  /** The lower-case form of a numeral is a plain literal with the numeral's value. */
  lemma NumeralLowered(literal: string, m: u64)
    requires IsNumeral(literal, m)
    ensures literal != [] && IsTidy(literal) && Plain(ToLower(literal)) && ParseLiteral(ToLower(literal)) == Some(m)
  {
    NumeralRead(literal, m);
    LowerIsInert(literal);
    LowerIsSame(literal);
    SameNumber(ToLower(literal), literal);
    assert IsInert(literal[0]) && IsInert(literal[|literal| - 1]);
  }

  lemma NodeFirst(text: string, node: string, gap: string, space: string, literal: string, m: u64, nodeId: u8)
    requires Spells(node, "$nodeid") && Blanks(gap) && Blanks(space) && IsNumeral(literal, m)
    requires text == node + gap + "+" + (space + literal)
    ensures EvaluateDefault(text, nodeId) == PlusNodeId(Some(m), nodeId)
  {
    NumeralLowered(literal, m);
    NodeIsTidy(node);
    SumSides(node, gap, space, literal);
    NodeIdForms(text, ToLower(node + gap), ToLower(space + literal), ToLower(literal), nodeId);
  }

  lemma NodeSecond(text: string, node: string, gap: string, space: string, literal: string, m: u64, nodeId: u8)
    requires Spells(node, "$nodeid") && Blanks(gap) && Blanks(space) && IsNumeral(literal, m)
    requires text == literal + gap + "+" + (space + node)
    ensures EvaluateDefault(text, nodeId) == PlusNodeId(Some(m), nodeId)
  {
    NumeralLowered(literal, m);
    NodeIsTidy(node);
    SumSides(literal, gap, space, node);
    NodeIdForms(text, ToLower(literal + gap), ToLower(space + node), ToLower(literal), nodeId);
  }

  lemma SumRead(text: string, node: string, gap: string, space: string, literal: string, m: u64, nodeId: u8)
    requires IsSum(text, node, gap, space, literal, m)
    ensures EvaluateDefault(text, nodeId) == PlusNodeId(Some(m), nodeId)
  {
    if text == node + gap + "+" + (space + literal) {
      NodeFirst(text, node, gap, space, literal, m, nodeId);
    } else {
      NodeSecond(text, node, gap, space, literal, m, nodeId);
    }
  }

  ghost predicate IsNodeSum(text: string, n: u64, nodeId: u8) {
    exists node, gap, space, literal, m: u64 ::
      IsSum(text, node, gap, space, literal, m) && (m + nodeId == n || m + nodeId == n + 0x1_0000_0000_0000_0000)
  }

  /** A minus sign counts down from 2^64. */
  ghost predicate IsNegative(text: string, n: u64) {
    exists m: u64 :: m > 0 && text == "-" + ToDecimal(m) && n == 0x1_0000_0000_0000_0000 - m
  }

  predicate IsNode(text: string, n: u64, nodeId: u8) {
    Spells(text, "$nodeid") && n == nodeId
  }

  /** A text for the integer n, modulo 2^64: a numeral, a negative decimal, $NODEID, or a sum with it. */
  ghost predicate IsIntegerText(text: string, n: u64, nodeId: u8) {
    IsNumeral(text, n) || IsNegative(text, n) || IsNode(text, n, nodeId) || IsNodeSum(text, n, nodeId)
  }

  lemma NegativeRead(text: string, n: u64, nodeId: u8)
    requires IsNegative(text, n)
    ensures EvaluateDefault(text, nodeId) == Some(n)
  {
    var m: u64 :| m > 0 && text == "-" + ToDecimal(m) && n == 0x1_0000_0000_0000_0000 - m;
    DigitsAreInert(ToDecimal(m), 10);
    assert Inert(text);
    ScanDecimal(m);
    LiteralRead(text, nodeId);
  }

  lemma NodeAloneRead(text: string, n: u64, nodeId: u8)
    requires IsNode(text, n, nodeId)
    ensures EvaluateDefault(text, nodeId) == Some(n)
  {
    NodeIsTidy(text);
    TrimLower(text);
    TrimPlain(text);
    NodeIdAlone(text, nodeId);
  }

  lemma SumWraps(m: u64, n: u64, nodeId: u8)
    requires m + nodeId == n || m + nodeId == n + 0x1_0000_0000_0000_0000
    ensures PlusNodeId(Some(m), nodeId) == Some(n)
  {
  }

  lemma NodeSumRead(text: string, n: u64, nodeId: u8)
    requires IsNodeSum(text, n, nodeId)
    ensures EvaluateDefault(text, nodeId) == Some(n)
  {
    var node, gap, space, literal, m: u64 :|
      IsSum(text, node, gap, space, literal, m) && (m + nodeId == n || m + nodeId == n + 0x1_0000_0000_0000_0000);
    SumRead(text, node, gap, space, literal, m, nodeId);
    SumWraps(m, n, nodeId);
  }

  /** Integers written as defaults are read as what they say, in any letter case and with any blanks. */
  lemma IntegerRead(text: string, n: u64, nodeId: u8)
    requires IsIntegerText(text, n, nodeId)
    ensures EvaluateDefault(text, nodeId) == Some(n)
  {
    if IsNumeral(text, n) {
      NumeralRead(text, n);
      LiteralRead(text, nodeId);
    } else if IsNegative(text, n) {
      NegativeRead(text, n, nodeId);
    } else if IsNode(text, n, nodeId) {
      NodeAloneRead(text, n, nodeId);
    } else {
      NodeSumRead(text, n, nodeId);
    }
  }

  // ----- The entry a section describes -----

  /** The DataType numbers of CiA 301; every other number is of no known type. */
  predicate IsTypeCode(code: nat, t: DataType) {
    match t
    case Boolean => code == 1
    case Integer8 => code == 2
    case Integer16 => code == 3
    case Integer32 => code == 4
    case Unsigned8 => code == 5
    case Unsigned16 => code == 6
    case Unsigned32 => code == 7
    case Real32 => code == 8
    case VisibleString => code == 9
    case OctetString => code == 10
    case Real64 => code == 17
    case Integer64 => code == 21
    case Unsigned64 => code == 27
    case UnknownType => code == 0 || 10 < code < 17 || 17 < code < 21 || 21 < code < 27 || 27 < code
  }

  ghost predicate TypeWritten(body: seq<Property>, t: DataType) {
    var n := LastSpelled(body, "datatype");
    if n < 0 then t == UnknownType
    else exists code: u32 :: IsNumeral(body[n].value, code) && IsTypeCode(code, t)
  }

  predicate IsAccessWord(text: string, access: AccessType) {
    match access
    case ReadOnly => Spells(text, "ro")
    case ReadWrite => Spells(text, "rw")
    case WriteOnly => Spells(text, "wo")
    case Constant => Spells(text, "const")
    case UnknownAccess =>
      !Spells(text, "ro") && !Spells(text, "rw") && !Spells(text, "wo") && !Spells(text, "const")
  }

  predicate AccessWritten(body: seq<Property>, access: AccessType) {
    var n := LastSpelled(body, "accesstype");
    if n < 0 then access == UnknownAccess else IsAccessWord(body[n].value, access)
  }

  /** A text in quotes, or any text that is not in quotes. */
  predicate IsTextFor(written: string, text: string) {
    || written == "\"" + text + "\""
    || (written == text && !(|text| >= 2 && text[0] == '"' && text[|text| - 1] == '"'))
  }

  predicate NameWritten(body: seq<Property>, k: ObjectKey, name: string) {
    var n := LastSpelled(body, "parametername");
    if n < 0 then name == CanonicalKey(k) else IsTextFor(body[n].value, name)
  }

  function TwosComplement(n: u64): int {
    if n < 0x8000_0000_0000_0000 then n else n - 0x1_0000_0000_0000_0000
  }

  /** What a default value text stands for in an entry of a type. */
  ghost predicate IsDefaultFor(text: string, t: DataType, v: Value, nodeId: u8, reals: RealText) {
    match t
    case VisibleString | OctetString => v.Text? && IsTextFor(text, v.text)
    case Real32 | Real64 => v.Real? && reals.parse(text) == Some(v.double)
    case Boolean => v.Flag? && exists n: u64 :: IsIntegerText(text, n, nodeId) && (v.flag <==> n != 0)
    case Integer8 | Integer16 | Integer32 | Integer64 =>
      v.Signed? && exists n: u64 :: IsIntegerText(text, n, nodeId) && v.signed == TwosComplement(n)
    case Unsigned8 | Unsigned16 | Unsigned32 | Unsigned64 | UnknownType =>
      v.Unsigned? && IsIntegerText(text, v.unsigned, nodeId)
  }

  ghost predicate ValueWritten(body: seq<Property>, t: DataType, v: Value, nodeId: u8, reals: RealText) {
    var n := LastSpelled(body, "defaultvalue");
    if n < 0 then v == Empty else IsDefaultFor(body[n].value, t, v, nodeId, reals)
  }

  /** The properties of a section, in any order and letter case, describe an entry. */
  ghost predicate Describes(body: seq<Property>, e: OdEntry, nodeId: u8, reals: RealText) {
    && NameWritten(body, e.key, e.name)
    && TypeWritten(body, e.dataType)
    && AccessWritten(body, e.access)
    && ValueWritten(body, e.dataType, e.value, nodeId, reals)
  }

  lemma LiteralIsTrimmed(text: string, n: u64)
    requires IsNumeral(text, n)
    ensures ParseLiteral(text) == Some(n)
  {
    NumeralRead(text, n);
    assert IsInert(text[0]) && IsInert(text[|text| - 1]);
    TrimPlain(text);
  }

  lemma TypeRead(s: Section, body: seq<Property>, t: DataType)
    requires s.values == Values(body) && TypeWritten(body, t)
    ensures SectionType(s) == Some(t)
  {
    var n := LastSpelled(body, "datatype");
    ValueOf(body, "datatype");
    if n >= 0 {
      var code: u32 :| IsNumeral(body[n].value, code) && IsTypeCode(code, t);
      LiteralIsTrimmed(body[n].value, code);
      CodeRead(code, t);
    }
  }

  lemma CodeRead(code: u32, t: DataType)
    requires IsTypeCode(code, t)
    ensures TypeOfCode(code) == t && U32(code) == code
  {
  }

  lemma AccessRead(text: string, access: AccessType)
    requires IsAccessWord(text, access)
    ensures AccessOfText(text) == access
  {
    LowerSpells(text, "ro");
    LowerSpells(text, "rw");
    LowerSpells(text, "wo");
    LowerSpells(text, "const");
  }

  lemma TextRead(written: string, text: string)
    requires IsTextFor(written, text)
    ensures Unquote(written) == text
  {
  }

  lemma SignedIsTwosComplement(n: u64)
    ensures AsSigned(n) == TwosComplement(n)
  {
  }

  lemma DefaultRead(text: string, t: DataType, v: Value, nodeId: u8, reals: RealText)
    requires IsTidy(text) && IsDefaultFor(text, t, v, nodeId, reals)
    ensures ParseDefault(text, t, nodeId, reals) == Some(v)
  {
    TrimPlain(text);
    if IsTextType(t) {
      TextRead(text, v.text);
    } else if t.Boolean? {
      var n: u64 :| IsIntegerText(text, n, nodeId) && (v.flag <==> n != 0);
      IntegerRead(text, n, nodeId);
    } else if IsSignedType(t) {
      var n: u64 :| IsIntegerText(text, n, nodeId) && v.signed == TwosComplement(n);
      IntegerRead(text, n, nodeId);
      SignedIsTwosComplement(n);
    } else if !IsRealType(t) {
      IntegerRead(text, v.unsigned, nodeId);
    }
  }

  /** The default of the last property with one. */
  ghost predicate DefaultIs(body: seq<Property>, parse: string -> Option<Value>, v: Value) {
    var n := LastSpelled(body, "defaultvalue");
    if n < 0 then v == Empty else parse(body[n].value) == Some(v)
  }

  lemma WrittenDefault(body: seq<Property>, t: DataType, v: Value, nodeId: u8, reals: RealText)
    requires ValueWritten(body, t, v, nodeId, reals)
    requires forall i :: 0 <= i < |body| ==> IsTidy(body[i].value)
    ensures DefaultIs(body, DefaultParser(t, nodeId, reals), v)
  {
    var n := LastSpelled(body, "defaultvalue");
    if n >= 0 {
      DefaultRead(body[n].value, t, v, nodeId, reals);
    }
  }

  lemma ValueRead(body: seq<Property>, parse: string -> Option<Value>, v: Value)
    requires DefaultIs(body, parse, v)
    ensures DefaultOf(Values(body), parse) == Some(v)
  {
    ValueOf(body, "defaultvalue");
  }

  lemma EntryAssembled(s: Section, body: seq<Property>, e: OdEntry, nodeId: u8, reals: RealText)
    requires s.values == Values(body)
    requires NameWritten(body, e.key, e.name) && AccessWritten(body, e.access)
    requires SectionType(s) == Some(e.dataType) && SectionValue(s, e.dataType, nodeId, reals) == Some(e.value)
    ensures EntryOf(s, e.key, nodeId, reals) == e && WarningsOf(s, nodeId, reals) == []
  {
    NameRead(s, body, e.key, e.name);
    WordRead(s, body, e.access);
  }

  lemma NameRead(s: Section, body: seq<Property>, k: ObjectKey, name: string)
    requires s.values == Values(body) && NameWritten(body, k, name)
    ensures name == if "parametername" in s.values then Unquote(s.values["parametername"]) else CanonicalKey(k)
  {
    var n := LastSpelled(body, "parametername");
    ValueOf(body, "parametername");
    if n >= 0 {
      TextRead(body[n].value, name);
    }
  }

  lemma WordRead(s: Section, body: seq<Property>, access: AccessType)
    requires s.values == Values(body) && AccessWritten(body, access)
    ensures access == if "accesstype" in s.values then AccessOfText(s.values["accesstype"]) else UnknownAccess
  {
    var n := LastSpelled(body, "accesstype");
    ValueOf(body, "accesstype");
    if n >= 0 {
      AccessRead(body[n].value, access);
    }
  }

  /** A section is read as the entry its properties describe, without a warning. */
  lemma EntryRead(s: Section, body: seq<Property>, e: OdEntry, nodeId: u8, reals: RealText)
    requires s.values == Values(body) && Describes(body, e, nodeId, reals)
    requires forall i :: 0 <= i < |body| ==> IsTidy(body[i].value)
    ensures EntryOf(s, e.key, nodeId, reals) == e && WarningsOf(s, nodeId, reals) == []
  {
    TypeRead(s, body, e.dataType);
    WrittenDefault(body, e.dataType, e.value, nodeId, reals);
    ValueRead(body, DefaultParser(e.dataType, nodeId, reals), e.value);
    EntryAssembled(s, body, e, nodeId, reals);
  }

  // ----- What is warned of -----

  /** A text that begins with neither a digit nor a minus sign. */
  predicate NotANumber(text: string) {
    Inert(text) && !(48 <= text[0] as int <= 57) && text[0] != '-'
  }

  lemma NotANumberRead(text: string, nodeId: u8)
    requires NotANumber(text)
    ensures ParseLiteral(text).None? && EvaluateDefault(text, nodeId).None?
  {
    assert IsInert(text[0]) && IsInert(text[|text| - 1]);
    TrimPlain(text);
    NoNumber("", "", text);
    assert "" + ("" + text) == text;
    LiteralRead(text, nodeId);
  }

  /** A DataType that is no number is warned of, and the type stays unknown. */
  lemma BadTypeWarned(s: Section, body: seq<Property>, k: ObjectKey, nodeId: u8, reals: RealText)
    requires s.values == Values(body) && LastSpelled(body, "datatype") >= 0
    requires NotANumber(body[LastSpelled(body, "datatype")].value)
    ensures InvalidDataType(s.name) in WarningsOf(s, nodeId, reals)
    ensures EntryOf(s, k, nodeId, reals).dataType == UnknownType
  {
    ValueOf(body, "datatype");
    NotANumberRead(body[LastSpelled(body, "datatype")].value, nodeId);
  }

  /** A DefaultValue that is no number, where one is needed, is warned of, and the entry stays empty. */
  lemma BadDefaultWarned(s: Section, body: seq<Property>, k: ObjectKey, t: DataType, nodeId: u8, reals: RealText)
    requires s.values == Values(body) && TypeWritten(body, t) && !IsTextType(t) && !IsRealType(t)
    requires LastSpelled(body, "defaultvalue") >= 0
    requires NotANumber(body[LastSpelled(body, "defaultvalue")].value)
    ensures InvalidDefaultValue(s.name) in WarningsOf(s, nodeId, reals)
    ensures EntryOf(s, k, nodeId, reals).value == Empty
  {
    var text := body[LastSpelled(body, "defaultvalue")].value;
    ValueOf(body, "defaultvalue");
    TypeRead(s, body, t);
    assert IsInert(text[0]) && IsInert(text[|text| - 1]);
    TrimPlain(text);
    NotANumberRead(text, nodeId);
  }

  // ----- Files -----

  /** A written section whose heading names the entry's key and whose properties describe the entry. */
  ghost predicate IsWritten(w: WrittenSection, e: OdEntry, nodeId: u8, reals: RealText) {
    IsSection(w) && Names(w.heading.name, e.key) && Describes(w.body, e, nodeId, reals)
  }

  ghost predicate FileWritten(file: seq<WrittenSection>, entries: seq<OdEntry>, nodeId: u8, reals: RealText) {
    |file| == |entries| && forall i :: 0 <= i < |file| ==> IsWritten(file[i], entries[i], nodeId, reals)
  }

  lemma SectionIsRead(file: seq<WrittenSection>, entries: seq<OdEntry>, i: nat, nodeId: u8, reals: RealText)
    requires FileWritten(file, entries, nodeId, reals) && i < |file|
    ensures ReadsAs(SectionsOf(file)[i], entries[i], nodeId, reals)
  {
    assert IsWritten(file[i], entries[i], nodeId, reals);
    assert forall j :: 0 <= j < |file[i].body| ==> IsProperty(file[i].body[j]);
    RecognisedIff(file[i].heading.name, entries[i].key);
    EntryRead(SectionsOf(file)[i], file[i].body, entries[i], nodeId, reals);
  }

  /** The dictionary the entries make when a later one replaces an earlier one of its key. */
  function LastEntries(entries: seq<OdEntry>): Dictionary {
    if entries == [] then map[]
    else
      var e := entries[|entries| - 1];
      LastEntries(entries[..|entries| - 1])[e.key := e]
  }

  /** A section that is read as an entry, without a warning. */
  ghost predicate ReadsAs(s: Section, e: OdEntry, nodeId: u8, reals: RealText) {
    && SectionKey(s) == Some(e.key)
    && EntryOf(s, e.key, nodeId, reals) == e
    && WarningsOf(s, nodeId, reals) == []
  }

  lemma {:induction false} DictionaryRead(sections: seq<Section>, entries: seq<OdEntry>, nodeId: u8, reals: RealText)
    requires |sections| == |entries|
    requires forall i :: 0 <= i < |sections| ==> ReadsAs(sections[i], entries[i], nodeId, reals)
    ensures DictionaryOf(sections, nodeId, reals) == LastEntries(entries)
    ensures AllWarnings(sections, nodeId, reals) == []
  {
    if sections != [] {
      var n := |sections| - 1;
      DictionaryRead(sections[..n], entries[..n], nodeId, reals);
      assert ReadsAs(sections[n], entries[n], nodeId, reals);
      DictionaryNext(sections, n, nodeId, reals);
      assert sections[..n + 1] == sections;
    }
  }

  /** The last of the entries with a key, or -1. */
  function LastOf(entries: seq<OdEntry>, k: ObjectKey): (i: int)
    ensures -1 <= i < |entries|
    ensures i >= 0 ==> entries[i].key == k
    ensures forall j :: i < j < |entries| ==> entries[j].key != k
  {
    if entries == [] then -1
    else if entries[|entries| - 1].key == k then |entries| - 1
    else LastOf(entries[..|entries| - 1], k)
  }

  /** The last of the entries with a key is the one in the dictionary. */
  lemma {:induction false} LastEntryWins(entries: seq<OdEntry>, k: ObjectKey)
    ensures var i := LastOf(entries, k);
            && (k in LastEntries(entries) <==> i >= 0)
            && (i >= 0 ==> LastEntries(entries)[k] == entries[i])
  {
    if entries != [] {
      LastEntryWins(entries[..|entries| - 1], k);
    }
  }

  /** The dictionary d has the last entry of every key, and nothing else. */
  ghost predicate HoldsLast(d: Dictionary, entries: seq<OdEntry>) {
    forall k :: HoldsLastAt(d, entries, k)
  }

  ghost predicate HoldsLastAt(d: Dictionary, entries: seq<OdEntry>, k: ObjectKey) {
    var i := LastOf(entries, k);
    if i < 0 then k !in d else k in d && d[k] == entries[i]
  }

  lemma LastEntriesHeld(entries: seq<OdEntry>)
    ensures HoldsLast(LastEntries(entries), entries)
  {
    forall k
      ensures HoldsLastAt(LastEntries(entries), entries, k)
    {
      LastEntryWins(entries, k);
    }
  }

  /** What the parser computes of a written file. */
  lemma WrittenRead(file: seq<WrittenSection>, entries: seq<OdEntry>, nodeId: u8, reals: RealText)
    requires FileWritten(file, entries, nodeId, reals)
    ensures HoldsLast(DictionaryOf(Sections(TextOf(FileLines(file))), nodeId, reals), entries)
    ensures AllWarnings(Sections(TextOf(FileLines(file))), nodeId, reals) == []
  {
    forall i | 0 <= i < |file|
      ensures IsSection(file[i])
    {
      assert IsWritten(file[i], entries[i], nodeId, reals);
    }
    WrittenSections(file);
    forall i | 0 <= i < |file|
      ensures ReadsAs(SectionsOf(file)[i], entries[i], nodeId, reals)
    {
      SectionIsRead(file, entries, i, nodeId, reals);
    }
    DictionaryRead(SectionsOf(file), entries, nodeId, reals);
    LastEntriesHeld(entries);
  }

  /**
   A written file parses, without a warning, to exactly the entries written in it: headings in either
   form, properties in any order and letter case, blanks and comments anywhere a person may put them.
   */
  method ParseWritten(text: string, nodeId: u8, reals: RealText, ghost file: seq<WrittenSection>,
                      ghost entries: seq<OdEntry>)
    returns (d: Dictionary, warnings: seq<Warning>)
    requires text == TextOf(FileLines(file)) && FileWritten(file, entries, nodeId, reals)
    ensures HoldsLast(d, entries) && warnings == []
  {
    WrittenRead(file, entries, nodeId, reals);
    d, warnings := ParseText(text, nodeId, reals);
  }
}
