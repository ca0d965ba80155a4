/** Lines, comments and sections of an EDS file. */
module EdsText {
  import opened Types
  import opened NumberText
  import opened Model
  import opened Walks

  // ----- Trimming -----

  function TrimRight(s: string): (t: string)
    ensures t <= s && (t != [] ==> !IsSpace(t[|t| - 1]))
  {
    if s != [] && IsSpace(s[|s| - 1]) then TrimRight(s[..|s| - 1]) else s
  }

  function Trim(s: string): string {
    TrimRight(SkipSpaces(s))
  }

  /** The first loop of trim: where the text starts. */
  method TextStart(input: string) returns (start: nat)
    ensures start <= |input| && SkipSpaces(input) == input[start..]
  {
    start := 0;
    while start < |input| && IsSpace(input[start])
      invariant start <= |input| && SkipSpaces(input) == SkipSpaces(input[start..])
    {
      assert input[start..][1..] == input[start + 1..];
      start := start + 1;
    }
  }

  method TrimText(input: string) returns (t: string)
    ensures t == Trim(input)
  {
    var start := TextStart(input);
    var end := |input|;
    assert input[start..] == input[start..end];
    while end > start && IsSpace(input[end - 1])
      invariant start <= end <= |input| && Trim(input) == TrimRight(input[start..end])
    {
      assert input[start..end][..end - start - 1] == input[start..end - 1];
      end := end - 1;
    }
    t := input[start..end];
  }

  /** Where the trimmed text sits in the original. */
  function TextSpan(s: string): (span: (nat, nat))
    ensures span.0 <= span.1 <= |s|
  {
    var skipped := SkipSpaces(s);
    (|s| - |skipped|, |s| - |skipped| + |TrimRight(skipped)|)
  }

  lemma {:induction false} SkippedAreSpaces(s: string)
    ensures SkipSpaces(s) == s[|s| - |SkipSpaces(s)|..]
    ensures forall i :: 0 <= i < |s| - |SkipSpaces(s)| ==> IsSpace(s[i])
  {
    if s != [] && IsSpace(s[0]) {
      SkippedAreSpaces(s[1..]);
    }
  }

  lemma {:induction false} TrimmedAreSpaces(s: string)
    ensures forall i :: |TrimRight(s)| <= i < |s| ==> IsSpace(s[i])
  {
    if s != [] && IsSpace(s[|s| - 1]) {
      TrimmedAreSpaces(s[..|s| - 1]);
    }
  }

  /** Trimming removes spaces at both ends, nothing but spaces, and all of them. */
  lemma TrimRemovesSpaces(s: string)
    ensures var (lo, hi) := TextSpan(s);
            && Trim(s) == s[lo..hi]
            && (forall i :: 0 <= i < lo || hi <= i < |s| ==> IsSpace(s[i]))
            && (lo < hi ==> !IsSpace(s[lo]) && !IsSpace(s[hi - 1]))
  {
    var skipped := SkipSpaces(s);
    SkippedAreSpaces(s);
    TrimmedAreSpaces(skipped);
    var (lo, hi) := TextSpan(s);
    assert skipped[..hi - lo] == s[lo..hi];
    forall i | hi <= i < |s|
      ensures IsSpace(s[i])
    {
      assert s[i] == skipped[i - lo];
    }
  }

  lemma TrimIdempotent(s: string)
    ensures Trim(Trim(s)) == Trim(s)
  {
  }

  function LowerChar(c: char): char {
    if 'A' <= c <= 'Z' then c - 'A' + 'a' else c
  }

  function ToLower(s: string): (t: string)
    ensures |t| == |s|
  {
    seq(|s|, i requires 0 <= i < |s| => LowerChar(s[i]))
  }

  // ----- Trimming inside a text -----

  predicate AllSpaces(s: string) {
    forall i :: 0 <= i < |s| ==> IsSpace(s[i])
  }

  lemma {:induction false} SpacesSkipped(s: string)
    requires AllSpaces(s)
    ensures SkipSpaces(s) == []
  {
    if s != [] {
      SpacesSkipped(s[1..]);
    }
  }

  lemma {:induction false} SpacesTrimmed(s: string)
    requires AllSpaces(s)
    ensures TrimRight(s) == []
  {
    if s != [] {
      SpacesTrimmed(s[..|s| - 1]);
    }
  }

  /** Spaces around a text that begins and ends without one are what trimming removes. */
  lemma TrimIs(a: string, t: string, b: string)
    requires AllSpaces(a) && AllSpaces(b) && (t != [] ==> !IsSpace(t[0]) && !IsSpace(t[|t| - 1]))
    ensures Trim(a + t + b) == t
  {
    SpacesSkipped(a);
    SpacesTrimmed(b);
    if t == [] {
      assert AllSpaces(a + t + b);
      SpacesSkipped(a + t + b);
    } else {
      Associative(a, t, b);
      SkipUpTo(a, t + b);
      assert SkipSpaces(a + t + b) == t + b;
      TrimBackTo(t, b);
      assert t + [] == t;
    }
  }

  lemma {:induction false} SkipUpTo(a: string, rest: string)
    requires rest != [] && !IsSpace(rest[0])
    ensures SkipSpaces(a + rest) == SkipSpaces(a) + rest
  {
    if a != [] {
      assert (a + rest)[1..] == a[1..] + rest;
      if IsSpace(a[0]) {
        SkipUpTo(a[1..], rest);
      }
    } else {
      assert a + rest == rest;
    }
  }

  lemma {:induction false} TrimBackTo(rest: string, b: string)
    requires rest != [] && !IsSpace(rest[|rest| - 1])
    ensures TrimRight(rest + b) == rest + TrimRight(b)
  {
    if b != [] {
      assert (rest + b)[..|rest + b| - 1] == rest + b[..|b| - 1];
      if IsSpace(b[|b| - 1]) {
        TrimBackTo(rest, b[..|b| - 1]);
      }
    } else {
      assert rest + b == rest;
    }
  }

  /** Around a character that is no space, the two sides are trimmed on their outer ends only. */
  lemma TrimAround(a: string, c: char, b: string)
    requires !IsSpace(c)
    ensures Trim(a + [c] + b) == SkipSpaces(a) + [c] + TrimRight(b)
  {
    Associative(a, [c], b);
    SkipUpTo(a, [c] + b);
    Associative(SkipSpaces(a), [c], b);
    TrimBackTo(SkipSpaces(a) + [c], b);
  }

  /** Trimming the right end first makes no difference. */
  lemma {:induction false} TrimAfterTrimRight(b: string)
    ensures Trim(TrimRight(b)) == Trim(b)
  {
    if b != [] && IsSpace(b[|b| - 1]) {
      var front := b[..|b| - 1];
      TrimAfterTrimRight(front);
      TrimDropsLast(front, b[|b| - 1]);
      assert b == front + [b[|b| - 1]];
    }
  }

  lemma {:induction false} TrimDropsLast(s: string, c: char)
    requires IsSpace(c)
    ensures Trim(s + [c]) == Trim(s)
  {
    if s != [] && IsSpace(s[0]) {
      assert (s + [c])[1..] == s[1..] + [c];
      TrimDropsLast(s[1..], c);
    } else if s != [] {
      assert SkipSpaces(s + [c]) == s + [c] && (s + [c])[..|s|] == s;
    } else {
      assert s + [c] == [c] && [c][1..] == [];
    }
  }

  /** Lower-casing and trimming commute. */
  lemma TrimLower(s: string)
    ensures Trim(ToLower(s)) == ToLower(Trim(s))
  {
    SkipLower(s);
    TrimRightLower(SkipSpaces(s));
  }

  lemma {:induction false} SkipLower(s: string)
    ensures SkipSpaces(ToLower(s)) == ToLower(SkipSpaces(s))
  {
    if s != [] {
      assert ToLower(s)[1..] == ToLower(s[1..]);
      SkipLower(s[1..]);
    }
  }

  lemma {:induction false} TrimRightLower(s: string)
    ensures TrimRight(ToLower(s)) == ToLower(TrimRight(s))
  {
    if s != [] {
      assert ToLower(s)[..|s| - 1] == ToLower(s[..|s| - 1]);
      TrimRightLower(s[..|s| - 1]);
    }
  }

  // ----- Comments -----

  /** The position of the first comment character outside quotes, or the length. */
  function CommentStart(line: string, quoted: bool): (n: nat)
    ensures n <= |line|
  {
    if line == [] then 0
    else if line[0] == '"' then 1 + CommentStart(line[1..], !quoted)
    else if !quoted && (line[0] == ';' || line[0] == '#') then 0
    else 1 + CommentStart(line[1..], quoted)
  }

  function Strip(line: string): string {
    Trim(line[..CommentStart(line, false)])
  }

  method StripInlineComment(line: string) returns (t: string)
    ensures t == Strip(line)
  {
    var quoted := false;
    for i := 0 to |line|
      invariant CommentStart(line, false) == i + CommentStart(line[i..], quoted)
    {
      assert line[i..][1..] == line[i + 1..];
      if line[i] == '"' {
        quoted := !quoted;
        continue;
      }
      if !quoted && (line[i] == ';' || line[i] == '#') {
        t := TrimText(line[..i]);
        return;
      }
    }
    assert line[..|line|] == line;
    t := TrimText(line);
  }

  predicate CommentFree(s: string, quoted: bool) {
    CommentStart(s, quoted) == |s|
  }

  lemma {:induction false} PrefixCommentFree(s: string, quoted: bool, n: nat)
    requires n <= CommentStart(s, quoted)
    ensures CommentFree(s[..n], quoted)
  {
    if n > 0 {
      var q := if s[0] == '"' then !quoted else quoted;
      PrefixCommentFree(s[1..], q, n - 1);
      assert s[..n][1..] == s[1..][..n - 1];
    }
  }

  lemma {:induction false} SkippedCommentFree(s: string)
    requires CommentFree(s, false)
    ensures CommentFree(SkipSpaces(s), false)
  {
    if s != [] && IsSpace(s[0]) {
      SkippedCommentFree(s[1..]);
    }
  }

  /** Stripping a stripped line changes nothing, for every string. */
  lemma StripIdempotent(line: string)
    ensures Strip(Strip(line)) == Strip(line)
  {
    var n := CommentStart(line, false);
    PrefixCommentFree(line, false, n);
    var skipped := SkipSpaces(line[..n]);
    SkippedCommentFree(line[..n]);
    var t := TrimRight(skipped);
    PrefixCommentFree(skipped, false, |t|);
    assert skipped[..|t|] == t && t[..|t|] == t;
    TrimIdempotent(line[..n]);
  }

  // ----- Lines -----

  /** std::getline until the stream ends: a trailing newline starts no further line. */
  function Lines(text: string): seq<string>
    decreases |text|
  {
    if text == [] then []
    else
      var n := Find(text, '\n');
      if n == |text| then [text] else [text[..n]] + Lines(text[n + 1..])
  }

  lemma LinesHead(line: string, rest: string)
    requires '\n' !in line
    ensures Lines(line + "\n" + rest) == [line] + Lines(rest)
  {
    var text := line + "\n" + rest;
    FindIs(text, '\n', |line|);
    assert text[..|line|] == line && text[|line| + 1..] == rest;
  }

  lemma LinesHeads(line: string, rest: string, b: string)
    requires '\n' !in line
    ensures Lines(line + "\n" + rest + "\n" + b) == [line] + Lines(rest + "\n" + b)
    ensures Lines(line + "\n" + rest + "\n") == [line] + Lines(rest + "\n")
  {
    Associative(line + "\n", rest, "\n");
    Associative(line + "\n", rest + "\n", b);
    LinesHead(line, rest + "\n" + b);
    LinesHead(line, rest + "\n");
  }

  lemma OneLine(line: string, b: string)
    requires '\n' !in line
    ensures Lines(line + "\n" + b) == Lines(line + "\n") + Lines(b)
  {
    assert line + "\n" == line + "\n" + "";
    LinesHead(line, b);
    LinesHead(line, "");
  }

  lemma CutAtNewline(a: string)
    ensures var n := Find(a, '\n');
            '\n' !in a[..n] && a == if n == |a| then a[..n] else a[..n] + "\n" + a[n + 1..]
  {
    var n := Find(a, '\n');
    if n < |a| {
      Around(a, n);
      assert [a[n]] == "\n";
    }
  }

  /** Cutting a text behind a newline cuts its lines. */
  lemma {:induction false} LinesSplit(a: string, b: string)
    ensures Lines(a + "\n" + b) == Lines(a + "\n") + Lines(b)
    decreases |a|
  {
    var n := Find(a, '\n');
    var line := a[..n];
    CutAtNewline(a);
    if n == |a| {
      OneLine(a, b);
    } else {
      var rest := a[n + 1..];
      LinesHeads(line, rest, b);
      LinesSplit(rest, b);
      Associative([line], Lines(rest + "\n"), Lines(b));
    }
  }

  // ----- Sections -----

  datatype Section = Section(name: string, values: map<string, string>)

  /** The sections closed so far, and the one being filled. */
  datatype Parse = Parse(closed: seq<Section>, current: Option<Section>)

  function Close(p: Parse): seq<Section> {
    p.closed + if p.current.Some? then [p.current.value] else []
  }

  predicate IsHeading(stripped: string) {
    |stripped| >= 2 && stripped[0] == '[' && stripped[|stripped| - 1] == ']'
  }

  function AddValue(s: Section, stripped: string): Section {
    var eq := Find(stripped, '=');
    if eq == |stripped| then s
    else s.(values := s.values[ToLower(Trim(stripped[..eq])) := Trim(stripped[eq + 1..])])
  }

  function ReadLine(p: Parse, line: string): Parse {
    var stripped := Strip(line);
    if stripped == [] then p
    else if IsHeading(stripped) then
      Parse(Close(p), Some(Section(Strip(stripped[1..|stripped| - 1]), map[])))
    else
      match p.current
      case None => p
      case Some(s) => p.(current := Some(AddValue(s, stripped)))
  }

  function ReadLines(p: Parse, lines: seq<string>): Parse
    decreases |lines|
  {
    if lines == [] then p else ReadLines(ReadLine(p, lines[0]), lines[1..])
  }

  /** The sections of a text. */
  function Sections(text: string): seq<Section> {
    Close(ReadLines(Parse([], None), Lines(text)))
  }

  ghost function ParseOf(closed: seq<Section>, current: Section, hasCurrent: bool): Parse {
    Parse(closed, if hasCurrent then Some(current) else None)
  }

  /** The body of the line loop. */
  method TakeLine(line: string, closed: seq<Section>, current: Section, hasCurrent: bool)
    returns (closed': seq<Section>, current': Section, hasCurrent': bool)
    ensures ParseOf(closed', current', hasCurrent') == ReadLine(ParseOf(closed, current, hasCurrent), line)
  {
    closed', current', hasCurrent' := closed, current, hasCurrent;
    var stripped := StripInlineComment(line);
    if stripped == [] {
      return;
    }
    if stripped[0] == '[' && stripped[|stripped| - 1] == ']' {
      if hasCurrent {
        closed' := closed + [current];
      }
      var name := StripInlineComment(stripped[1..|stripped| - 1]);
      current' := Section(name, map[]);
      hasCurrent' := true;
      return;
    }
    if !hasCurrent {
      return;
    }
    var eq := Find(stripped, '=');
    if eq == |stripped| {
      return;
    }
    var key := TrimText(stripped[..eq]);
    var value := TrimText(stripped[eq + 1..]);
    current' := current.(values := current.values[ToLower(key) := value]);
  }

  lemma ReadLinesHead(p: Parse, line: string, rest: seq<string>)
    ensures ReadLines(p, [line] + rest) == ReadLines(ReadLine(p, line), rest)
  {
    assert ([line] + rest)[1..] == rest;
  }

  method ParseIniSections(text: string) returns (sections: seq<Section>)
    ensures sections == Sections(text)
  {
    sections := [];
    var current := Section("", map[]);
    var hasCurrent := false;
    var rest := text;
    while rest != []
      invariant ReadLines(ParseOf(sections, current, hasCurrent), Lines(rest))
             == ReadLines(Parse([], None), Lines(text))
      decreases |rest|
    {
      var n := Find(rest, '\n');
      var line := rest[..n];
      var after := if n < |rest| then rest[n + 1..] else "";
      assert rest[..|rest|] == rest && Lines("") == [];
      assert Lines(rest) == [line] + Lines(after);
      ReadLinesHead(ParseOf(sections, current, hasCurrent), line, Lines(after));
      sections, current, hasCurrent := TakeLine(line, sections, current, hasCurrent);
      rest := after;
    }
    if hasCurrent {
      sections := sections + [current];
    }
  }

  lemma {:induction false} ReadLinesAppend(p: Parse, a: seq<string>, b: seq<string>)
    ensures ReadLines(p, a + b) == ReadLines(ReadLines(p, a), b)
    decreases |a|
  {
    if a == [] {
      assert a + b == b;
    } else {
      ReadLinesAppend(ReadLine(p, a[0]), a[1..], b);
      assert (a + b)[1..] == a[1..] + b;
    }
  }

  lemma BlankLineSkipped(p: Parse, line: string, rest: seq<string>)
    requires Strip(line) == []
    ensures ReadLines(p, [line] + rest) == ReadLines(p, rest)
  {
    assert ([line] + rest)[1..] == rest;
  }

  /** A newline at the end of a text adds at most an empty line. */
  lemma {:induction false} LinesTrailingNewline(a: string)
    ensures Lines(a + "\n") == Lines(a) || Lines(a + "\n") == Lines(a) + [""]
    decreases |a|
  {
    var n := Find(a, '\n');
    CutAtNewline(a);
    if n == |a| {
      LinesHead(a, "");
      assert a + "\n" == a + "\n" + "";
    } else {
      var line, rest := a[..n], a[n + 1..];
      LinesHeads(line, rest, "");
      LinesHead(line, rest);
      LinesTrailingNewline(rest);
      Associative([line], Lines(rest), [""]);
    }
  }

  /** A newline at the end of a text changes no section. */
  lemma TrailingNewlineIgnored(a: string)
    ensures Sections(a + "\n") == Sections(a)
  {
    var start := Parse([], None);
    LinesTrailingNewline(a);
    ReadLinesAppend(start, Lines(a), [""]);
    BlankLineSkipped(ReadLines(start, Lines(a)), "", []);
    assert [""] + [] == [""];
  }

  /**
   A blank or comment-only line put in at any line boundary changes no section: between two lines,
   before the first one, or behind the last one, with a newline of its own or without.
   */
  lemma BlankLineIgnored(before: string, line: string, after: string)
    requires '\n' !in line && Strip(line) == []
    ensures Sections(before + "\n" + (line + "\n" + after)) == Sections(before + "\n" + after)
    ensures Sections(line + "\n" + after) == Sections(after)
    ensures Sections(before + "\n" + line) == Sections(before)
    ensures Sections(before + "\n" + (line + "\n")) == Sections(before)
  {
    InnerLineIgnored(before, line, after);
    InnerLineIgnored(before, line, "");
    assert line + "\n" + "" == line + "\n" && before + "\n" + "" == before + "\n";
    TrailingNewlineIgnored(before);
    Associative(before + "\n", line, "\n");
    TrailingNewlineIgnored(before + "\n" + line);
    var start := Parse([], None);
    LinesHead(line, after);
    BlankLineSkipped(start, line, Lines(after));
  }

  lemma InnerLineIgnored(before: string, line: string, after: string)
    requires '\n' !in line && Strip(line) == []
    ensures Sections(before + "\n" + (line + "\n" + after)) == Sections(before + "\n" + after)
  {
    var start := Parse([], None);
    LinesHead(line, after);
    LinesSplit(before, line + "\n" + after);
    LinesSplit(before, after);
    ReadLinesAppend(start, Lines(before + "\n"), [line] + Lines(after));
    ReadLinesAppend(start, Lines(before + "\n"), Lines(after));
    BlankLineSkipped(ReadLines(start, Lines(before + "\n")), line, Lines(after));
  }

  lemma {:induction false} CommentAfterSpaces(spaces: string, mark: char, rest: string)
    requires AllSpaces(spaces) && (mark == ';' || mark == '#')
    ensures CommentStart(spaces + [mark] + rest, false) == |spaces|
  {
    if spaces != [] {
      CommentAfterSpaces(spaces[1..], mark, rest);
      assert (spaces + [mark] + rest)[1..] == spaces[1..] + [mark] + rest;
    }
  }

  lemma {:induction false} SpacesVanish(spaces: string)
    requires AllSpaces(spaces)
    ensures Trim(spaces) == [] && Strip(spaces) == []
  {
    if spaces != [] {
      SpacesVanish(spaces[1..]);
    }
    TrimRemovesSpaces(spaces);
    TrimRemovesSpaces(spaces[..CommentStart(spaces, false)]);
  }

  /** The lines that hold nothing: spaces alone, and spaces before a comment of any text. */
  lemma BlankLines(spaces: string, mark: char, rest: string)
    requires AllSpaces(spaces) && (mark == ';' || mark == '#')
    ensures Strip(spaces) == [] && Strip(spaces + [mark] + rest) == []
  {
    SpacesVanish(spaces);
    CommentAfterSpaces(spaces, mark, rest);
    assert (spaces + [mark] + rest)[..|spaces|] == spaces;
  }
}
