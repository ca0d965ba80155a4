/** A plain way to write any entry down, so that parsing what was printed gives the dictionary back. */
module EdsPrinting {
  import opened Types
  import opened NumberText
  import opened Model
  import opened ValueText
  import opened EdsParser
  import opened EdsWriting
  import opened EdsEntries

  predicate IsOneLine(s: string) {
    Without(s, '"') && Without(s, '\n')
  }

  /** Entries a file can hold: quotable texts, a value of the declared type, and no floating-point value. */
  predicate Printable(e: OdEntry) {
    && IsOneLine(e.name)
    && match e.value
       case Empty => true
       case Flag(_) => e.dataType.Boolean?
       case Signed(_) => IsSignedType(e.dataType)
       case Unsigned(_) => IsUnsignedType(e.dataType) || e.dataType.UnknownType?
       case Text(s) => IsTextType(e.dataType) && IsOneLine(s)
       case Real(_) => false
  }

  function Quote(s: string): string {
    "\"" + s + "\""
  }

  function Line(name: string, value: string): Property {
    Property("", name, "", "", value, "", "")
  }

  function HeadingName(k: ObjectKey): string {
    PadZeros(ToBase(k.index, 16), 4) + "sub" + ToBase(k.subIndex, 16)
  }

  function CodeOf(t: DataType): u8 {
    match t
    case UnknownType => 0
    case Boolean => 1
    case Integer8 => 2
    case Integer16 => 3
    case Integer32 => 4
    case Unsigned8 => 5
    case Unsigned16 => 6
    case Unsigned32 => 7
    case Real32 => 8
    case VisibleString => 9
    case OctetString => 10
    case Real64 => 17
    case Integer64 => 21
    case Unsigned64 => 27
  }

  function AccessWord(access: AccessType): string {
    match access
    case ReadOnly => "ro"
    case ReadWrite => "rw"
    case WriteOnly => "wo"
    case Constant => "const"
    case UnknownAccess => ""
  }

  function DefaultText(v: Value): string {
    match v
    case Flag(b) => ToDecimal(if b then 1 else 0)
    case Signed(i) => PrintI64(i)
    case Unsigned(u) => ToDecimal(u)
    case Text(s) => Quote(s)
    case _ => ""
  }

  function ValueLines(v: Value): seq<Property> {
    if v.Empty? then [] else [Line("DefaultValue", DefaultText(v))]
  }

  /** One section: a heading with sub-index, name, type, access and the value if there is one. */
  function Print(e: OdEntry): WrittenSection {
    WrittenSection(
      Heading("", "", HeadingName(e.key), "", "", ""),
      [Line("ParameterName", Quote(e.name)),
       Line("DataType", PrintedHex(CodeOf(e.dataType), 4)),
       Line("AccessType", AccessWord(e.access))] + ValueLines(e.value))
  }

  function PrintAll(entries: seq<OdEntry>): seq<WrittenSection> {
    seq(|entries|, i requires 0 <= i < |entries| => Print(entries[i]))
  }

  // ----- What is printed is well written -----

  lemma InertLine(s: string)
    requires Inert(s)
    ensures IsPlain(s) && IsTidy(s) && Without(s, '\n') && IsValueText(s)
  {
    forall i | 0 <= i < |s|
      ensures s[i] != '"' && s[i] != ';' && s[i] != '#' && s[i] != '\n' && !IsBlank(s[i])
    {
      assert IsInert(s[i]);
    }
  }

  lemma QuotedValue(s: string)
    requires IsOneLine(s)
    ensures IsValueText(Quote(s)) && Without(Quote(s), '\n')
  {
  }

  lemma LineIsProperty(name: string, value: string)
    requires name != [] && forall i :: 0 <= i < |name| ==> IsLetter(name[i])
    requires IsValueText(value) && Without(value, '\n')
    ensures IsProperty(Line(name, value))
  {
    var p := Line(name, value);
    assert LeftSide(p) == name && RightSide(p) == value;
    assert PropertyLine(p) == name + "=" + value;
  }

  lemma NameLine(name: string)
    requires IsOneLine(name)
    ensures IsProperty(Line("ParameterName", Quote(name)))
  {
    QuotedValue(name);
    LineIsProperty("ParameterName", Quote(name));
  }

  lemma TypeLine(t: DataType)
    ensures IsProperty(Line("DataType", PrintedHex(CodeOf(t), 4)))
  {
    HexPrinted(CodeOf(t), 4);
    InertLine(PrintedHex(CodeOf(t), 4));
    LineIsProperty("DataType", PrintedHex(CodeOf(t), 4));
  }

  lemma AccessLine(access: AccessType)
    ensures IsProperty(Line("AccessType", AccessWord(access)))
  {
    var word := AccessWord(access);
    assert IsValueText(word) && Without(word, '\n');
    LineIsProperty("AccessType", word);
  }

  lemma DecimalLine(n: nat)
    ensures Inert(ToDecimal(n)) && Inert("-" + ToDecimal(n))
  {
    DigitsAreInert(ToDecimal(n), 10);
  }

  lemma DefaultLine(v: Value)
    requires !v.Empty? && !v.Real? && (v.Text? ==> IsOneLine(v.text))
    ensures IsProperty(Line("DefaultValue", DefaultText(v)))
  {
    match v {
      case Text(s) =>
        QuotedValue(s);
      case Flag(b) =>
        DecimalLine(if b then 1 else 0);
        InertLine(DefaultText(v));
      case Signed(i) =>
        var w: int := i;
        DecimalLine(if w < 0 then -w else w);
        InertLine(DefaultText(v));
      case Unsigned(u) =>
        DecimalLine(u);
        InertLine(DefaultText(v));
      case _ =>
    }
    LineIsProperty("DefaultValue", DefaultText(v));
  }

  lemma HexIsInert(s: string)
    requires IsHex(s)
    ensures forall i :: 0 <= i < |s| ==> IsInert(s[i]) && s[i] != '\n'
  {
    forall i | 0 <= i < |s|
      ensures IsInert(s[i]) && s[i] != '\n'
    {
      assert HexCode(s[i]) >= 0;
    }
  }

  lemma NameIsInert(name: string, k: ObjectKey)
    requires Names(name, k)
    ensures Inert(name)
  {
    HexIsInert(name[..4]);
    forall i | 0 <= i < |name|
      ensures IsInert(name[i])
    {
      if i < 4 {
        assert name[..4][i] == name[i];
      } else if i < 7 {
        assert name[4..7][i - 4] == "sub"[i - 4];
      } else {
        HexIsInert(name[7..]);
        assert name[7..][i - 7] == name[i];
      }
    }
  }

  /** A heading alone on its line. */
  lemma BareHeading(name: string)
    requires Inert(name)
    ensures IsHeadingText(Heading("", "", name, "", "", ""))
  {
    InertLine(name);
    var h := Heading("", "", name, "", "", "");
    assert HeadingLine(h) == "[" + name + "]";
  }

  lemma HeadingIsWritten(k: ObjectKey)
    ensures Names(HeadingName(k), k)
    ensures IsHeadingText(Heading("", "", HeadingName(k), "", "", ""))
  {
    HeadingRoundTrip(k);
    RecognisedIff(HeadingName(k), k);
    NameIsInert(HeadingName(k), k);
    BareHeading(HeadingName(k));
  }

  // ----- What is printed describes the entry -----

  lemma LastIs(lines: seq<Property>, i: nat, word: string)
    requires i < |lines| && Spells(lines[i].name, word)
    requires forall j :: i < j < |lines| ==> |lines[j].name| != |word|
    ensures LastSpelled(lines, word) == i
  {
  }

  lemma IntegerWritten(t: DataType, v: Value, nodeId: u8, reals: RealText)
    requires v.Flag? || v.Signed? || v.Unsigned?
    requires match v
             case Flag(_) => t.Boolean?
             case Signed(_) => IsSignedType(t)
             case _ => IsUnsignedType(t) || t.UnknownType?
    ensures IsDefaultFor(DefaultText(v), t, v, nodeId, reals)
  {
    if v.Flag? {
      assert IsIntegerText(DefaultText(v), if v.flag then 1 else 0, nodeId);
    } else if v.Signed? {
      SignedWritten(v.signed, nodeId);
    } else {
      assert IsIntegerText(DefaultText(v), v.unsigned, nodeId);
    }
  }

  lemma SignedWritten(i: i64, nodeId: u8)
    ensures exists n: u64 :: IsIntegerText(PrintI64(i), n, nodeId) && i == TwosComplement(n)
  {
    var w: int := i;
    if w < 0 {
      var m: u64 := -w;
      var n: u64 := 0x1_0000_0000_0000_0000 - m;
      assert IsNegative(PrintI64(i), n);
      assert IsIntegerText(PrintI64(i), n, nodeId) && i == TwosComplement(n);
    } else {
      var n: u64 := w;
      assert IsNumeral(PrintI64(i), n);
      assert IsIntegerText(PrintI64(i), n, nodeId) && i == TwosComplement(n);
    }
  }

  lemma NameDescribed(e: OdEntry)
    ensures NameWritten(Print(e).body, e.key, e.name)
  {
    LastIs(Print(e).body, 0, "parametername");
  }

  lemma TypeDescribed(e: OdEntry)
    ensures TypeWritten(Print(e).body, e.dataType)
  {
    LastIs(Print(e).body, 1, "datatype");
    var code := CodeOf(e.dataType);
    CodePrinted(code);
    assert IsTypeCode(code, e.dataType);
  }

  lemma CodePrinted(code: u8)
    ensures IsNumeral(PrintedHex(code, 4), code)
  {
    assert SameLetters(PrintedHex(code, 4), PrintedHex(code, 4));
  }

  lemma AccessDescribed(e: OdEntry)
    ensures AccessWritten(Print(e).body, e.access)
  {
    LastIs(Print(e).body, 2, "accesstype");
  }

  lemma ValueDescribed(e: OdEntry, nodeId: u8, reals: RealText)
    requires Printable(e)
    ensures ValueWritten(Print(e).body, e.dataType, e.value, nodeId, reals)
  {
    var body := Print(e).body;
    if e.value.Empty? {
      NoneSpelled(body, "defaultvalue");
    } else {
      LastIs(body, 3, "defaultvalue");
      if !e.value.Text? {
        IntegerWritten(e.dataType, e.value, nodeId, reals);
      }
    }
  }

  lemma {:induction false} NoneSpelled(lines: seq<Property>, word: string)
    requires forall j :: 0 <= j < |lines| ==> |lines[j].name| != |word|
    ensures LastSpelled(lines, word) == -1
  {
  }

  lemma PrintedIsSection(e: OdEntry)
    requires Printable(e)
    ensures IsSection(Print(e))
  {
    HeadingIsWritten(e.key);
    NameLine(e.name);
    TypeLine(e.dataType);
    AccessLine(e.access);
    if !e.value.Empty? {
      DefaultLine(e.value);
    }
    forall i | 0 <= i < |Print(e).body|
      ensures IsProperty(Print(e).body[i])
    {
    }
  }

  /** Every printable entry is written by what is printed for it. */
  lemma PrintedIsWritten(e: OdEntry, nodeId: u8, reals: RealText)
    requires Printable(e)
    ensures IsWritten(Print(e), e, nodeId, reals)
  {
    HeadingIsWritten(e.key);
    PrintedIsSection(e);
    NameDescribed(e);
    TypeDescribed(e);
    AccessDescribed(e);
    ValueDescribed(e, nodeId, reals);
  }

  /** Printing and parsing: the last printed entry of every key comes back unchanged, and nothing else. */
  method PrintThenParse(entries: seq<OdEntry>, nodeId: u8, reals: RealText)
    returns (d: Dictionary, warnings: seq<Warning>)
    requires forall i :: 0 <= i < |entries| ==> Printable(entries[i])
    ensures HoldsLast(d, entries) && warnings == []
  {
    forall i | 0 <= i < |entries|
      ensures IsWritten(PrintAll(entries)[i], entries[i], nodeId, reals)
    {
      PrintedIsWritten(entries[i], nodeId, reals);
    }
    d, warnings := ParseWritten(TextOf(FileLines(PrintAll(entries))), nodeId, reals, PrintAll(entries), entries);
  }
}
