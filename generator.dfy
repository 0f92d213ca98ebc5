/**
 * The outline parser of `generate_pitch_deck_outline`: it turns the text the
 * language model returned for the pitch-deck prompt into slides, one for each
 * line shaped like `<number>. <title>: <content>`, and falls back to a single
 * slide holding the whole text when no line has that shape.
 */
module Generator {
  import opened Wrappers
  import opened Text

  /** One slide of the outline: the dictionary `{"title": ..., "content": ...}`. */
  datatype Slide = Slide(title: string, content: string)

  /** Title of the fallback slide. */
  const FallbackTitle: string := "Pitch Deck"

  /** The characters `lstrip("- ")` removes: a character set, not the prefix `"- "`. */
  predicate IsBulletMarker(c: char) {
    c == '-' || c == ' '
  }

  /** The fallback outline: one slide carrying the whole text unchanged. */
  function Fallback(raw: string): seq<Slide> {
    [Slide(FallbackTitle, raw)]
  }

  /**
   * `raw.splitlines()`, cutting at every line-boundary character. Where
   * `splitlines` sees one boundary in `"\r\n"` and none after a final newline,
   * this yields an extra empty line; empty lines are blank and skipped, so the
   * parse is the same.
   */
  function Lines(raw: string): (lines: seq<string>)
    ensures |lines| == 1 + Count(raw, LineBreaks)
  {
    SplitCount(raw, LineBreaks);
    Split(raw, LineBreaks)
  }

  /** What one line of the text contributes: a slide, or nothing. */
  function ParseLine(line: string): Option<Slide> {
    if Blank(line) then None
    else match SplitOnce(line, '.')
      case None => None
      case Some((_, rest)) =>
        match SplitOnce(Strip(rest), ':')
        case None => None
        case Some((title, content)) => Some(Slide(Strip(title), Content(content)))
  }

  /** `content.strip().lstrip("- ")`: the text after the colon, as the slide keeps it. */
  function Content(text: string): string {
    LStrip(Strip(text), IsBulletMarker)
  }

  /** The slide a parse result contributes, as a list of zero or one. */
  function Found(r: Option<Slide>): seq<Slide> {
    if r.Some? then [r.value] else []
  }

  /** Number of lines that are not blank. */
  function NonBlankCount(lines: seq<string>): nat {
    if lines == [] then 0
    else (if Blank(lines[0]) then 0 else 1) + NonBlankCount(lines[1..])
  }

  /** The slides a loop over `lines` appends, in order, when `parse` is what its body finds on one line. */
  function Collect(lines: seq<string>, parse: string -> Option<Slide>): (slides: seq<Slide>)
    ensures |slides| <= |lines|
  {
    if lines == [] then []
    else Found(parse(lines[0])) + Collect(lines[1..], parse)
  }

  /** The slides the parsing loop appends for `lines`. */
  function Parsed(lines: seq<string>): seq<Slide> {
    Collect(lines, ParseLine)
  }

  /** The parser's result for `raw`: the slides found, or the fallback when there are none. */
  function Outline(raw: string): (slides: seq<Slide>)
    ensures |slides| >= 1
  {
    var found := Parsed(Lines(raw));
    if found == [] then Fallback(raw) else found
  }

  /**
   * The parsing loop of `generate_pitch_deck_outline`, over the text already
   * returned by the model.
   */
  method ParseOutline(raw: string) returns (slides: seq<Slide>)
    ensures slides == Outline(raw)
    ensures |slides| >= 1
  {
    slides := [];
    var lines := Lines(raw);
    for i := 0 to |lines|
      invariant slides == Parsed(lines[..i])
    {
      var line := lines[i];
      assert Collect(lines[..i + 1], ParseLine) == Collect(lines[..i], ParseLine) + Found(ParseLine(line)) by {
        assert lines[..i + 1] == lines[..i] + [line];
        CollectSnoc(lines[..i], line, ParseLine);
      }
      if Blank(line) {
        continue;
      }
      var byDot := SplitOnce(line, '.');
      if byDot.Some? {
        var rest := Strip(byDot.value.1);
        var byColon := SplitOnce(rest, ':');
        if byColon.Some? {
          var title := Strip(byColon.value.0);
          var content := LStrip(Strip(byColon.value.1), IsBulletMarker);
          slides := slides + [Slide(title, content)];
        }
      }
    }
    assert lines[..|lines|] == lines;
    if slides == [] {
      slides := Fallback(raw);
    }
  }

  // What the outline parser guarantees, proved about `ParseLine`, `Parsed` and `Outline`.

  /**
   * A line `<prefix>.<mid>:<post>`, split at its first `.` and at the first
   * `:` after it, is one slide: whatever precedes the dot is dropped, the
   * title is `mid` stripped, and the content is `post` stripped and then
   * cleared of leading `-` and space characters.
   */
  lemma ParseLineFields(prefix: string, mid: string, post: string)
    requires '.' !in prefix && ':' !in mid
    ensures ParseLine(prefix + "." + mid + ":" + post)
         == Some(Slide(Strip(mid), Content(post)))
  {
    var rest := mid + [':'] + post;
    var line := prefix + ['.'] + rest;
    assert prefix + "." + mid + ":" + post == line;
    SplitOnceIs(prefix, '.', rest);
    assert !Blank(line) by {
      TrimFacts(line, IsSpace);
      assert line[|prefix|] == '.';
    }
    TrimAround(mid, ':', post, IsSpace);
    LStripFacts(mid, IsSpace);
    var lm := LStrip(mid, IsSpace);
    assert ':' !in lm by {
      assert forall k :: 0 <= k < |lm| ==> lm[k] == mid[|mid| - |lm| + k];
    }
    SplitOnceIs(lm, ':', RStrip(post, IsSpace));
    TrimOfLStripped(mid, IsSpace);
    TrimOfRStripped(post, IsSpace);
  }

  /**
   * The line format the prompt asks for: a number, a dot, the title, a colon
   * and the content, with one blank after the dot and after the colon.
   */
  function FormatLine(number: string, slide: Slide): string {
    number + ". " + slide.title + ": " + slide.content
  }

  /** Slides that survive a trip through `FormatLine` and `ParseLine` unchanged. */
  predicate Formattable(number: string, slide: Slide) {
    && '.' !in number
    && ':' !in slide.title && Stripped(slide.title)
    && Stripped(slide.content) && (slide.content == [] || !IsBulletMarker(slide.content[0]))
  }

  /** One blank in front of a stripped text is all `Strip` removes. */
  lemma StripLeadingBlank(x: string)
    requires Stripped(x)
    ensures Strip(" " + x) == x
  {
    var s := " " + x;
    assert s[1..] == x;
    if x == [] {
      TrimIs(s, IsSpace, 1, 1);
    } else {
      TrimIs(s, IsSpace, 1, |s|);
    }
  }

  /** Parsing a formatted line gives back the slide it was made from. */
  lemma ParseFormatted(number: string, slide: Slide)
    requires Formattable(number, slide)
    ensures ParseLine(FormatLine(number, slide)) == Some(slide)
  {
    var t, c := slide.title, slide.content;
    assert FormatLine(number, slide) == number + "." + (" " + t) + ":" + (" " + c);
    ParseLineFields(number, " " + t, " " + c);
    StripLeadingBlank(t);
    StripLeadingBlank(c);
    LStripIs(c, IsBulletMarker, 0);
  }

  /** A line without a `.` contributes nothing. */
  lemma ParseLineNoDot(line: string)
    requires '.' !in line
    ensures ParseLine(line) == None
  {
    SplitOnceFacts(line, '.');
  }

  /** A line with no `:` after its first `.` contributes nothing. */
  lemma ParseLineNoColon(prefix: string, rest: string)
    requires '.' !in prefix && ':' !in rest
    ensures ParseLine(prefix + "." + rest) == None
  {
    SplitOnceIs(prefix, '.', rest);
    TrimFacts(rest, IsSpace);
    SplitOnceFacts(Strip(rest), ':');
    assert prefix + "." + rest == prefix + ['.'] + rest;
  }

  /** A blank or whitespace-only line contributes nothing. */
  lemma ParseLineBlank(line: string)
    requires AllIn(line, IsSpace)
    ensures ParseLine(line) == None
  {
    BlankIff(line);
  }

  /** Content never starts with `-` or a space, and ends without whitespace. */
  lemma ContentShape(text: string)
    ensures |Content(text)| <= |text|
    ensures var c := Content(text); c == [] || (!IsBulletMarker(c[0]) && !IsSpace(c[|c| - 1]))
  {
    var s := Strip(text);
    StripShape(text);
    LStripFacts(s, IsBulletMarker);
    var c := LStrip(s, IsBulletMarker);
    if c != [] {
      assert c[|c| - 1] == s[|s| - 1];
    }
  }

  /**
   * The shape of every slide a line yields: the title has no `:` and no
   * whitespace at either end; the content starts with neither `-` nor a space
   * and ends without whitespace; the two together are shorter than the line.
   */
  lemma ParseLineShape(line: string)
    requires ParseLine(line).Some?
    ensures ':' !in ParseLine(line).value.title && Stripped(ParseLine(line).value.title)
    ensures var c := ParseLine(line).value.content;
      c == [] || (!IsBulletMarker(c[0]) && !IsSpace(c[|c| - 1]))
    ensures |ParseLine(line).value.title| + |ParseLine(line).value.content| < |line|
  {
    SplitOnceFacts(line, '.');
    var rest := SplitOnce(line, '.').value.1;
    var stripped := Strip(rest);
    SplitOnceFacts(stripped, ':');
    var (title, content) := SplitOnce(stripped, ':').value;
    assert ParseLine(line).value == Slide(Strip(title), Content(content));
    StripShape(rest);
    StripShape(title);
    ContentShape(content);
  }

  /** Every slide collected is what `parse` finds on one of the lines. */
  lemma {:induction false} CollectFrom(lines: seq<string>, parse: string -> Option<Slide>, s: Slide)
    requires s in Collect(lines, parse)
    ensures exists l <- lines :: parse(l) == Some(s)
    decreases |lines|
  {
    if s !in Found(parse(lines[0])) {
      CollectFrom(lines[1..], parse, s);
      var l :| l in lines[1..] && parse(l) == Some(s);
      assert l in lines;
    }
  }

  /** Nothing is collected exactly when `parse` finds nothing on any line. */
  lemma {:induction false} CollectEmpty(lines: seq<string>, parse: string -> Option<Slide>)
    ensures Collect(lines, parse) == [] <==> forall l <- lines :: parse(l).None?
    decreases |lines|
  {
    if lines != [] {
      CollectEmpty(lines[1..], parse);
      assert lines == [lines[0]] + lines[1..];
    }
  }

  /** Slides come out in the order of their lines: collecting distributes over concatenation. */
  lemma {:induction false} CollectAppend(a: seq<string>, b: seq<string>, parse: string -> Option<Slide>)
    ensures Collect(a + b, parse) == Collect(a, parse) + Collect(b, parse)
    decreases |a|
  {
    if a == [] {
      assert a + b == b;
    } else {
      assert (a + b)[0] == a[0];
      assert (a + b)[1..] == a[1..] + b;
      CollectAppend(a[1..], b, parse);
    }
  }

  /** One more line adds what `parse` finds on it, at the end. */
  lemma CollectSnoc(lines: seq<string>, last: string, parse: string -> Option<Slide>)
    ensures Collect(lines + [last], parse) == Collect(lines, parse) + Found(parse(last))
  {
    CollectAppend(lines, [last], parse);
    assert [last][1..] == [];
  }

  /** When `parse` finds a slide on every line, there is exactly one slide per line, in order. */
  lemma {:induction false} CollectAllFound(lines: seq<string>, parse: string -> Option<Slide>)
    requires forall l <- lines :: parse(l).Some?
    ensures |Collect(lines, parse)| == |lines|
    ensures forall i :: 0 <= i < |lines| ==> Collect(lines, parse)[i] == parse(lines[i]).value
    decreases |lines|
  {
    if lines != [] {
      var tail := lines[1..];
      assert forall l <- tail :: l in lines;
      CollectAllFound(tail, parse);
      var c := Collect(lines, parse);
      assert c == [parse(lines[0]).value] + Collect(tail, parse) by {
        assert parse(lines[0]).Some?;
      }
      forall i | 1 <= i < |lines| ensures c[i] == parse(lines[i]).value {
        assert lines[i] == tail[i - 1];
      }
    }
  }

  /** The parsing loop appends at most one slide per non-blank line. */
  lemma {:induction false} ParsedAtMostNonBlank(lines: seq<string>)
    ensures |Parsed(lines)| <= NonBlankCount(lines)
    decreases |lines|
  {
    if lines != [] {
      ParsedAtMostNonBlank(lines[1..]);
    }
  }

  /**
   * The fallback slide `("Pitch Deck", raw)`, with `raw` unchanged, is the
   * result exactly when no line yields a slide.
   */
  lemma OutlineFallback(raw: string)
    ensures Outline(raw) == Fallback(raw) <==> forall l <- Lines(raw) :: ParseLine(l).None?
  {
    var lines := Lines(raw);
    CollectEmpty(lines, ParseLine);
    if Outline(raw) == Fallback(raw) && Parsed(lines) != [] {
      var s := Slide(FallbackTitle, raw);
      assert s in Parsed(lines);
      CollectFrom(lines, ParseLine, s);
      var l :| l in lines && ParseLine(l) == Some(s);
      NoLineYieldsWholeText(raw, l);
    }
  }

  /** No single line can yield a slide whose content is the whole text: content is shorter than its line. */
  lemma NoLineYieldsWholeText(raw: string, l: string)
    requires l in Lines(raw)
    ensures ParseLine(l) != Some(Slide(FallbackTitle, raw))
  {
    SplitPieces(raw, LineBreaks);
    assert |l| <= |raw|;
    if ParseLine(l).Some? {
      ParseLineShape(l);
    }
  }

  /** A line without a `:` contributes nothing. */
  lemma ParseLineWithoutColon(line: string)
    requires ':' !in line
    ensures ParseLine(line) == None
  {
    SplitOnceFacts(line, '.');
    if SplitOnce(line, '.').Some? {
      var (a, b) := SplitOnce(line, '.').value;
      assert line == a + "." + b;
      assert ':' !in b by {
        assert forall k :: 0 <= k < |b| ==> b[k] == line[|a| + 1 + k];
      }
      ParseLineNoColon(a, b);
    }
  }

  /** A text whose characters all satisfy `p` has lines whose characters all satisfy it. */
  lemma LinesKeep(raw: string, p: char -> bool)
    requires forall c <- raw :: p(c)
    ensures forall l <- Lines(raw), c <- l :: p(c)
  {
    SplitPieces(raw, LineBreaks);
  }

  /** Text without a `.` falls back. */
  lemma OutlineWithoutDot(raw: string)
    requires '.' !in raw
    ensures Outline(raw) == Fallback(raw)
  {
    LinesKeep(raw, c => c != '.');
    forall l <- Lines(raw) ensures ParseLine(l).None? {
      ParseLineNoDot(l);
    }
    OutlineFallback(raw);
  }

  /** Text without a `:` falls back. */
  lemma OutlineWithoutColon(raw: string)
    requires ':' !in raw
    ensures Outline(raw) == Fallback(raw)
  {
    LinesKeep(raw, c => c != ':');
    forall l <- Lines(raw) ensures ParseLine(l).None? {
      ParseLineWithoutColon(l);
    }
    OutlineFallback(raw);
  }

  /** Empty or whitespace-only text falls back. */
  lemma OutlineOfWhitespace(raw: string)
    requires AllIn(raw, IsSpace)
    ensures Outline(raw) == Fallback(raw)
  {
    LinesKeep(raw, IsSpace);
    forall l <- Lines(raw) ensures ParseLine(l).None? {
      assert AllIn(l, IsSpace);
      ParseLineBlank(l);
    }
    OutlineFallback(raw);
  }

  /**
   * Once some line yields a slide, no fallback slide is added: the result is
   * the slides of the matching lines, at most one per non-blank line.
   */
  lemma OutlineFound(raw: string)
    requires exists l <- Lines(raw) :: ParseLine(l).Some?
    ensures Outline(raw) == Parsed(Lines(raw))
    ensures |Outline(raw)| <= NonBlankCount(Lines(raw))
  {
    CollectEmpty(Lines(raw), ParseLine);
    ParsedAtMostNonBlank(Lines(raw));
  }

  /** The slides of two texts joined by a newline are those of the first followed by those of the second. */
  lemma ParsedJoinedText(a: string, b: string)
    ensures Parsed(Lines(a + "\n" + b)) == Parsed(Lines(a)) + Parsed(Lines(b))
  {
    SplitAround(a, '\n', b, LineBreaks);
    assert a + "\n" + b == a + ['\n'] + b;
    CollectAppend(Lines(a), Lines(b), ParseLine);
  }

  /**
   * Well-formed outline lines joined by newlines parse to one slide per line,
   * in input order, each exactly the slide of its own line.
   */
  lemma OutlineOfWellFormedLines(lines: seq<string>)
    requires |lines| >= 1
    requires forall l <- lines :: forall k :: 0 <= k < |l| ==> l[k] !in LineBreaks
    requires forall l <- lines :: ParseLine(l).Some?
    ensures |Outline(Join(lines, '\n'))| == |lines|
    ensures forall i :: 0 <= i < |lines| ==> Outline(Join(lines, '\n'))[i] == ParseLine(lines[i]).value
  {
    SplitJoin(lines, '\n', LineBreaks);
    CollectAllFound(lines, ParseLine);
  }
}

module GeneratorExamples {
  import opened Wrappers
  import opened Text
  import opened Generator

  /** Text without a line-boundary character is a single line. */
  lemma OneLine(l: string)
    requires forall c <- l :: c !in LineBreaks
    ensures Lines(l) == [l]
  {
    FindIs(l, LineBreaks, |l|);
  }

  /** A reply of a single line that yields a slide is an outline of exactly that slide. */
  lemma OutlineOfOneLine(l: string, slide: Slide)
    requires forall c <- l :: c !in LineBreaks
    requires ParseLine(l) == Some(slide)
    ensures Outline(l) == [slide]
  {
    OneLine(l);
    assert Collect([l], ParseLine) == Collect([], ParseLine) + Found(ParseLine(l));
  }

  /**
   * A reply made of one line in the format of the parser's inline comment
   * (`1. Title: point1; point2; point3`) is an outline of exactly that slide.
   */
  lemma OutlineOfFormattedLine(number: string, slide: Slide)
    requires Formattable(number, slide)
    requires forall c <- FormatLine(number, slide) :: c !in LineBreaks
    ensures Outline(FormatLine(number, slide)) == [slide]
  {
    ParseFormatted(number, slide);
    OutlineOfOneLine(FormatLine(number, slide), slide);
  }

  /** A reply in no numbered format: `"Slide one stuff\nmore stuff"` is one fallback slide holding it unchanged. */
  lemma ExampleUnnumbered()
    ensures Outline("Slide one stuff\nmore stuff") == [Slide("Pitch Deck", "Slide one stuff\nmore stuff")]
  {
    OutlineWithoutDot("Slide one stuff\nmore stuff");
  }

  /** Empty text falls back too. */
  lemma ExampleEmpty()
    ensures Outline("") == [Slide("Pitch Deck", "")]
  {
    OutlineOfWhitespace("");
  }
}
