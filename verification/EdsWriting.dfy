/**
 EDS files as people write them, character by character: headings, properties, spaces, comments and letter case.
 What a file written this way says is what the parser reads.
 */
module EdsWriting {
  import opened Types
  import opened NumberText
  import opened Model
  import opened Walks
  import opened EdsText

  // ----- Characters by code -----

  /** Space, tab, line feed, vertical tab, form feed, carriage return. */
  predicate IsBlank(c: char) {
    c as int == 32 || 9 <= c as int <= 13
  }

  predicate Blanks(s: string) {
    forall i :: 0 <= i < |s| ==> IsBlank(s[i])
  }

  lemma BlanksAreSpaces(s: string)
    ensures Blanks(s) <==> AllSpaces(s)
  {
    assert forall c: char :: IsBlank(c) <==> IsSpace(c);
  }

  predicate IsLetter(c: char) {
    65 <= c as int <= 90 || 97 <= c as int <= 122
  }

  /** The character itself, or the capital of a small letter. */
  predicate IsCased(c: char, small: char) {
    c == small || (97 <= small as int <= 122 && c as int == small as int - 32)
  }

  /** A word written in any letter case. */
  predicate Spells(s: string, word: string) {
    |s| == |word| && forall i :: 0 <= i < |s| ==> IsCased(s[i], word[i])
  }

  predicate NoCapitals(word: string) {
    forall i :: 0 <= i < |word| ==> !(65 <= word[i] as int <= 90)
  }

  lemma LowerIsCased(c: char, small: char)
    requires !(65 <= small as int <= 90)
    ensures LowerChar(c) == small <==> IsCased(c, small)
  {
  }

  /** Lower-casing gives exactly the word that is spelled. */
  lemma LowerSpells(s: string, word: string)
    requires NoCapitals(word)
    ensures ToLower(s) == word <==> Spells(s, word)
  {
    forall i | 0 <= i < |s| && |s| == |word|
      ensures ToLower(s)[i] == word[i] <==> IsCased(s[i], word[i])
    {
      LowerIsCased(s[i], word[i]);
    }
  }

  // ----- Quotes and comments -----

  /** Whether a quote is open behind the text. */
  function InQuotes(s: string, quoted: bool): bool {
    if s == [] then quoted else InQuotes(s[1..], if s[0] == '"' then !quoted else quoted)
  }

  lemma {:induction false} CommentStartConcat(a: string, b: string, quoted: bool)
    requires CommentFree(a, quoted)
    ensures CommentStart(a + b, quoted) == |a| + CommentStart(b, InQuotes(a, quoted))
    ensures InQuotes(a + b, quoted) == InQuotes(b, InQuotes(a, quoted))
  {
    if a == [] {
      assert a + b == b;
    } else {
      assert (a + b)[1..] == a[1..] + b;
      CommentStartConcat(a[1..], b, if a[0] == '"' then !quoted else quoted);
    }
  }

  /** No comment begins in the text, and no quote is left open behind it. */
  predicate Neat(s: string) {
    CommentFree(s, false) && !InQuotes(s, false)
  }

  lemma NeatConcat(a: string, b: string)
    requires Neat(a) && Neat(b)
    ensures Neat(a + b)
  {
    CommentStartConcat(a, b, false);
  }

  predicate Without(s: string, c: char) {
    forall i :: 0 <= i < |s| ==> s[i] != c
  }

  lemma {:induction false} UnquotedStays(s: string, quoted: bool)
    requires Without(s, '"') && (!quoted ==> Without(s, ';') && Without(s, '#'))
    ensures CommentFree(s, quoted) && InQuotes(s, quoted) == quoted
  {
    if s != [] {
      UnquotedStays(s[1..], quoted);
    }
  }

  predicate IsPlain(s: string) {
    Without(s, '"') && Without(s, ';') && Without(s, '#')
  }

  lemma PlainIsNeat(s: string)
    requires IsPlain(s)
    ensures Neat(s)
  {
    UnquotedStays(s, false);
  }

  /** Between quotes, comment characters are text. */
  lemma QuotedIsNeat(s: string)
    requires Without(s, '"')
    ensures Neat("\"" + s + "\"")
  {
    UnquotedStays(s, true);
    assert CommentFree("\"", false) && InQuotes("\"", false) by {
      assert "\""[1..] == [];
    }
    assert CommentFree("\"", true) && !InQuotes("\"", true) by {
      assert "\""[1..] == [];
    }
    CommentStartConcat("\"", s, false);
    CommentStartConcat("\"" + s, "\"", false);
  }

  predicate IsComment(s: string) {
    s == [] || s[0] == ';' || s[0] == '#'
  }

  /** A comment behind a neat text is cut off. */
  lemma StripComment(core: string, comment: string)
    requires Neat(core) && IsComment(comment)
    ensures Strip(core + comment) == Trim(core)
  {
    CommentStartConcat(core, comment, false);
    assert (core + comment)[..|core|] == core;
  }

  // ----- Property lines -----

  datatype Property = Property(indent: string, name: string, gap: string,
                               lead: string, value: string, tail: string, comment: string)

  function LeftSide(p: Property): string {
    p.indent + p.name + p.gap
  }

  function RightSide(p: Property): string {
    p.lead + p.value + p.tail
  }

  function PropertyLine(p: Property): string {
    LeftSide(p) + "=" + RightSide(p) + p.comment
  }

  /** No blank at either end. */
  predicate IsTidy(s: string) {
    s != [] ==> !IsBlank(s[0]) && !IsBlank(s[|s| - 1])
  }

  /** A value is plain, or stands between quotes. */
  ghost predicate IsValueText(s: string) {
    IsTidy(s) && (IsPlain(s) || exists t :: s == "\"" + t + "\"" && Without(t, '"'))
  }

  ghost predicate IsProperty(p: Property) {
    && Blanks(p.indent) && Blanks(p.gap) && Blanks(p.lead) && Blanks(p.tail)
    && p.name != [] && (forall i :: 0 <= i < |p.name| ==> IsLetter(p.name[i]))
    && IsValueText(p.value) && IsComment(p.comment)
    && Without(PropertyLine(p), '\n')
  }

  lemma SidesAreNeat(p: Property)
    requires IsProperty(p)
    ensures Neat(LeftSide(p)) && Neat(RightSide(p)) && Neat(LeftSide(p) + "=" + RightSide(p))
    ensures Without(LeftSide(p), '=')
  {
    PlainIsNeat(LeftSide(p));
    PlainIsNeat("=");
    PlainIsNeat(p.lead);
    PlainIsNeat(p.tail);
    if IsPlain(p.value) {
      PlainIsNeat(p.value);
    } else {
      var t :| p.value == "\"" + t + "\"" && Without(t, '"');
      QuotedIsNeat(t);
    }
    NeatConcat(p.lead, p.value);
    NeatConcat(p.lead + p.value, p.tail);
    NeatConcat(LeftSide(p), "=");
    NeatConcat(LeftSide(p) + "=", RightSide(p));
  }

  lemma SidesTrimmed(p: Property)
    requires IsProperty(p)
    ensures Trim(LeftSide(p)) == p.name && Trim(RightSide(p)) == p.value
    ensures SkipSpaces(LeftSide(p)) == p.name + p.gap
  {
    BlanksAreSpaces(p.indent);
    BlanksAreSpaces(p.gap);
    BlanksAreSpaces(p.lead);
    BlanksAreSpaces(p.tail);
    TrimIs(p.indent, p.name, p.gap);
    TrimIs(p.lead, p.value, p.tail);
    Associative(p.indent, p.name, p.gap);
    SpacesSkipped(p.indent);
    SkipUpTo(p.indent, p.name + p.gap);
  }

  /** A property line adds its value under the lower-case form of its name. */
  lemma PropertyRead(closed: seq<Section>, s: Section, p: Property)
    requires IsProperty(p)
    ensures ReadLine(Parse(closed, Some(s)), PropertyLine(p))
         == Parse(closed, Some(s.(values := s.values[ToLower(p.name) := p.value])))
  {
    var left, right := LeftSide(p), RightSide(p);
    SidesAreNeat(p);
    SidesTrimmed(p);
    StripComment(left + "=" + right, p.comment);
    TrimAround(left, '=', right);
    TrimAfterTrimRight(right);
    TrimIdempotent(left);
    AddedValue(s, p.name + p.gap, TrimRight(right), p.name, p.value);
    assert (p.name + p.gap)[0] == p.name[0];
  }

  lemma AddedValue(s: Section, front: string, back: string, name: string, value: string)
    requires Without(front, '=') && Trim(front) == name && Trim(back) == value
    ensures AddValue(s, front + "=" + back) == s.(values := s.values[ToLower(name) := value])
  {
    var stripped := front + "=" + back;
    FindIs(stripped, '=', |front|);
    assert stripped[..|front|] == front && stripped[|front| + 1..] == back;
  }

  // ----- Headings -----

  datatype Heading = Heading(indent: string, lead: string, name: string, trail: string, tail: string, comment: string)

  function Bracketed(h: Heading): string {
    "[" + (h.lead + h.name + h.trail) + "]"
  }

  function HeadingLine(h: Heading): string {
    h.indent + Bracketed(h) + h.tail + h.comment
  }

  predicate IsHeadingText(h: Heading) {
    && Blanks(h.indent) && Blanks(h.lead) && Blanks(h.trail) && Blanks(h.tail)
    && IsTidy(h.name) && IsPlain(h.name) && IsComment(h.comment)
    && Without(HeadingLine(h), '\n')
  }

  lemma InnerHeading(h: Heading)
    requires IsHeadingText(h)
    ensures Neat(h.lead + h.name + h.trail) && Strip(h.lead + h.name + h.trail) == h.name
  {
    var inner := h.lead + h.name + h.trail;
    BlanksAreSpaces(h.lead);
    BlanksAreSpaces(h.trail);
    PlainIsNeat(inner);
    StripComment(inner, "");
    assert inner + "" == inner;
    TrimIs(h.lead, h.name, h.trail);
  }

  lemma OuterHeading(h: Heading)
    requires IsHeadingText(h)
    ensures Strip(HeadingLine(h)) == Bracketed(h)
  {
    BlanksAreSpaces(h.indent);
    BlanksAreSpaces(h.tail);
    InnerHeading(h);
    PlainIsNeat("[");
    PlainIsNeat("]");
    PlainIsNeat(h.indent);
    PlainIsNeat(h.tail);
    NeatConcat("[", h.lead + h.name + h.trail);
    NeatConcat("[" + (h.lead + h.name + h.trail), "]");
    NeatConcat(h.indent, Bracketed(h));
    NeatConcat(h.indent + Bracketed(h), h.tail);
    StripComment(h.indent + Bracketed(h) + h.tail, h.comment);
    TrimIs(h.indent, Bracketed(h), h.tail);
  }

  /** A heading line closes the section before it and opens one with its name. */
  lemma HeadingRead(p: Parse, h: Heading)
    requires IsHeadingText(h)
    ensures ReadLine(p, HeadingLine(h)) == Parse(Close(p), Some(Section(h.name, map[])))
  {
    OuterHeading(h);
    InnerHeading(h);
    var b := Bracketed(h);
    assert b[1..|b| - 1] == h.lead + h.name + h.trail;
  }

  // ----- Files -----

  datatype WrittenSection = WrittenSection(heading: Heading, body: seq<Property>)

  ghost predicate IsSection(w: WrittenSection) {
    IsHeadingText(w.heading) && forall i :: 0 <= i < |w.body| ==> IsProperty(w.body[i])
  }

  function BodyLines(body: seq<Property>): seq<string> {
    seq(|body|, i requires 0 <= i < |body| => PropertyLine(body[i]))
  }

  function FileLines(file: seq<WrittenSection>): seq<string> {
    if file == [] then []
    else
      var w := file[|file| - 1];
      FileLines(file[..|file| - 1]) + ([HeadingLine(w.heading)] + BodyLines(w.body))
  }

  /** Every line ended by a newline. */
  function TextOf(lines: seq<string>): string {
    if lines == [] then "" else lines[0] + "\n" + TextOf(lines[1..])
  }

  lemma {:induction false} LinesOfText(lines: seq<string>)
    requires forall i :: 0 <= i < |lines| ==> Without(lines[i], '\n')
    ensures Lines(TextOf(lines)) == lines
  {
    if lines != [] {
      LinesOfText(lines[1..]);
      LinesHead(lines[0], TextOf(lines[1..]));
    }
  }

  /** The values of a section: those of its property lines, a later one replacing an earlier one of the same name. */
  function Values(body: seq<Property>): map<string, string> {
    if body == [] then map[]
    else
      var p := body[|body| - 1];
      Values(body[..|body| - 1])[ToLower(p.name) := p.value]
  }

  /** The last property spelled like the word, or -1. */
  function LastSpelled(body: seq<Property>, word: string): (n: int)
    ensures -1 <= n < |body|
    ensures n >= 0 ==> Spells(body[n].name, word)
    ensures forall i :: n < i < |body| ==> !Spells(body[i].name, word)
  {
    if body == [] then -1
    else if Spells(body[|body| - 1].name, word) then |body| - 1
    else LastSpelled(body[..|body| - 1], word)
  }

  lemma {:induction false} ValueOf(body: seq<Property>, word: string)
    requires NoCapitals(word)
    ensures var n := LastSpelled(body, word);
            && (word in Values(body) <==> n >= 0)
            && (n >= 0 ==> Values(body)[word] == body[n].value)
  {
    if body != [] {
      ValueOf(body[..|body| - 1], word);
      LowerSpells(body[|body| - 1].name, word);
    }
  }

  lemma {:induction false} BodyRead(closed: seq<Section>, name: string, body: seq<Property>)
    requires forall i :: 0 <= i < |body| ==> IsProperty(body[i])
    ensures ReadLines(Parse(closed, Some(Section(name, map[]))), BodyLines(body))
         == Parse(closed, Some(Section(name, Values(body))))
  {
    if body != [] {
      var front, last := body[..|body| - 1], body[|body| - 1];
      BodyRead(closed, name, front);
      PropertyRead(closed, Section(name, Values(front)), last);
      BodyLinesNext(body);
      ReadLinesAppend(Parse(closed, Some(Section(name, map[]))), BodyLines(front), [PropertyLine(last)]);
      OneLineRead(Parse(closed, Some(Section(name, Values(front)))), PropertyLine(last));
    }
  }

  lemma BodyLinesNext(body: seq<Property>)
    requires body != []
    ensures BodyLines(body) == BodyLines(body[..|body| - 1]) + [PropertyLine(body[|body| - 1])]
  {
  }

  lemma OneLineRead(p: Parse, line: string)
    ensures ReadLines(p, [line]) == ReadLine(p, line)
  {
    assert [line][1..] == [];
  }

  lemma SectionRead(p: Parse, w: WrittenSection)
    requires IsSection(w)
    ensures ReadLines(p, [HeadingLine(w.heading)] + BodyLines(w.body))
         == Parse(Close(p), Some(Section(w.heading.name, Values(w.body))))
  {
    ReadLinesHead(p, HeadingLine(w.heading), BodyLines(w.body));
    HeadingRead(p, w.heading);
    BodyRead(Close(p), w.heading.name, w.body);
  }

  /** The sections a file says it has. */
  function SectionsOf(file: seq<WrittenSection>): seq<Section> {
    seq(|file|, i requires 0 <= i < |file| => Section(file[i].heading.name, Values(file[i].body)))
  }

  lemma {:induction false} FileRead(file: seq<WrittenSection>)
    requires forall i :: 0 <= i < |file| ==> IsSection(file[i])
    ensures Close(ReadLines(Parse([], None), FileLines(file))) == SectionsOf(file)
  {
    if file != [] {
      var front, w := file[..|file| - 1], file[|file| - 1];
      FileRead(front);
      ReadLinesAppend(Parse([], None), FileLines(front), [HeadingLine(w.heading)] + BodyLines(w.body));
      SectionRead(ReadLines(Parse([], None), FileLines(front)), w);
      SectionsNext(file);
    }
  }

  lemma SectionsNext(file: seq<WrittenSection>)
    requires file != []
    ensures var w := file[|file| - 1];
            SectionsOf(file) == SectionsOf(file[..|file| - 1]) + [Section(w.heading.name, Values(w.body))]
  {
  }

  lemma {:induction false} FileLinesUnbroken(file: seq<WrittenSection>)
    requires forall i :: 0 <= i < |file| ==> IsSection(file[i])
    ensures forall i :: 0 <= i < |FileLines(file)| ==> Without(FileLines(file)[i], '\n')
  {
    if file != [] {
      FileLinesUnbroken(file[..|file| - 1]);
    }
  }

  /** A written file has exactly the sections written, with the values of their property lines. */
  lemma WrittenSections(file: seq<WrittenSection>)
    requires forall i :: 0 <= i < |file| ==> IsSection(file[i])
    ensures Sections(TextOf(FileLines(file))) == SectionsOf(file)
  {
    FileLinesUnbroken(file);
    LinesOfText(FileLines(file));
    FileRead(file);
  }
}
