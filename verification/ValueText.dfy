/** Values as text: the parser used for keyword arguments and configuration defaults, and the keyword printer. */
module ValueText {
  import opened Types
  import opened NumberText
  import opened Model

  /** std::stod and the stream printer of doubles, which the model leaves open. */
  datatype RealText = RealText(parse: string -> Option<Double>, show: Double -> string)

  function ParseValue(text: string, t: DataType, reals: RealText): Option<Value> {
    if t.Boolean? then
      if text == "1" || text == "true" || text == "TRUE" then Some(Flag(true))
      else if text == "0" || text == "false" || text == "FALSE" then Some(Flag(false))
      else None
    else if IsSignedType(t) then
      match ParseI64(text) case Some(v) => Some(Signed(v)) case None => None
    else if IsUnsignedType(t) then
      match ParseU64(text) case Some(v) => Some(Unsigned(v)) case None => None
    else if IsRealType(t) then
      match reals.parse(text) case Some(v) => Some(Real(v)) case None => None
    else Some(Text(text))
  }

  function FormatValue(v: Value, reals: RealText): string {
    match v
    case Empty => ""
    case Flag(b) => if b then "true" else "false"
    case Signed(i) => PrintI64(i)
    case Unsigned(u) => ToDecimal(u)
    case Real(x) => reals.show(x)
    case Text(s) => s
  }

  /** Whatever text parses for a type is accepted by the simulator's check of that type. */
  lemma ParsedIsCompatible(text: string, t: DataType, reals: RealText)
    requires ParseValue(text, t, reals).Some?
    ensures Compatible(t, ParseValue(text, t, reals).value)
  {
  }

  /** Parsing what was printed gives the value back, over the whole 64-bit ranges. */
  lemma FormatRoundTrip(v: Value, t: DataType, reals: RealText)
    requires Compatible(t, v) && !v.Empty? && !v.Real? && (t.UnknownType? ==> v.Text?)
    ensures ParseValue(FormatValue(v, reals), t, reals) == Some(v)
  {
    match v
    case Signed(i) => ParsePrintedI64(i);
    case Unsigned(u) => ParsePrintedU64(u);
    case _ =>
  }

  /** An unknown-typed entry comes back as text, so a number stored in one does not survive. */
  lemma UnknownTypeReadsText(v: Value, reals: RealText)
    ensures ParseValue(FormatValue(v, reals), UnknownType, reals) == Some(Text(FormatValue(v, reals)))
    ensures ParseValue(FormatValue(v, reals), UnknownType, reals) == Some(v) <==> v.Text?
  {
  }

  /** Which texts a boolean is read from, and that every other text is refused. */
  lemma BooleanTexts(text: string, reals: RealText)
    ensures text == "1" || text == "true" || text == "TRUE" ==> ParseValue(text, Boolean, reals) == Some(Flag(true))
    ensures text == "0" || text == "false" || text == "FALSE" ==> ParseValue(text, Boolean, reals) == Some(Flag(false))
    ensures ParseValue(text, Boolean, reals).Some? ==>
              text in {"1", "true", "TRUE", "0", "false", "FALSE"}
  {
  }

  /** How every value is shown: numbers in decimal digits, booleans as words, texts as they are. */
  ghost predicate IsShown(v: Value, text: string, reals: RealText) {
    match v
    case Empty => text == ""
    case Flag(b) => text == if b then "true" else "false"
    case Unsigned(u) => IsDecimal(text, u)
    case Signed(i) =>
      if i >= 0 then IsDecimal(text, i)
      else text != [] && text[0] == '-' && IsDecimal(text[1..], 0 as int - i)
    case Real(x) => text == reals.show(x)
    case Text(s) => text == s
  }

  predicate IsDecimal(text: string, n: int) {
    && text != [] && (forall i :: 0 <= i < |text| ==> 48 <= text[i] as int <= 57)
    && (|text| > 1 ==> text[0] != '0') && DecimalByCode(text) == n
  }

  lemma ShownByKind(v: Value, reals: RealText)
    ensures IsShown(v, FormatValue(v, reals), reals)
  {
    if v.Unsigned? {
      PrintedByCode(v.unsigned);
    } else if v.Signed? {
      var w: int := v.signed;
      PrintedByCode(if w < 0 then -w else w);
      assert w < 0 ==> FormatValue(v, reals)[1..] == ToDecimal(-w);
    }
  }
}
