# Pitch-deck outline parser and deck assembler, in Dafny

The startup co-founder agent asks a language model for a ten-slide pitch
deck and gets back free text. Two pieces of its code turn that text into a
presentation, and this project models and proves both:

- **The outline parser** (`generate_pitch_deck_outline`, after the model
  call). It reads the reply line by line. A line shaped like
  `<number>. <title>: <content>` becomes a slide. Everything up to the first
  `.` is dropped, the title is cut at the first `:` after it, and the content
  loses its surrounding whitespace and any leading `-` and space characters.
  Blank lines, lines without a `.` and lines without a `:` after the first
  `.` are skipped. When no line
  yields a slide, the result is one slide titled `Pitch Deck` that holds the
  whole reply unchanged.
- **The deck assembler** (`create_pitch_deck`). It refuses an empty list of
  slides. It adds the first slide with layout 0 of the template and every
  later slide with layout 1. A slide's title and content are read with
  `.get(key, "")`. The content is cut into bullets at `;` and line feeds;
  each bullet is stripped and blank ones are dropped.

Files:

- `wrappers.dfy`: `Option` and `Result`.
- `text.dfy` (module `Text`): the `str` operations the code relies on, each
  with its facts proved. These are `in`, `split(c, 1)`, `split`, `strip`,
  `not s.strip()`, `lstrip(chars)` and `replace`.
- `generator.dfy`:
  - module `Generator`: the parser. `Lines` is its `splitlines()`.
    `ParseOutline` is the loop, proved equal to the function `Outline`.
  - module `GeneratorExamples`: single-line replies and concrete replies.
- `ppt_generator.dfy` (module `PptGenerator`): the assembler.
  `CreatePitchDeck` is the loop, proved equal to the function `Deck` for
  whichever placeholder kinds it looks for.

How the model represents the source:

- `Option`/`Result` values stand in for exceptions. The `ValueError` for an
  empty list is `Failure(NoSlides)`.
- A slide dictionary is a `map<string, string>`.
- The presentation library is a parameter. A template is a list of
  `LayoutShape` values: for each layout, the type code of each placeholder it
  puts on a slide, and which of them is the title shape.
- A slide of the saved deck is a `Page`: its layout index and the paragraphs
  written into each placeholder.

Three behaviours of the code are worth knowing before the table:

- A slide's content stays one string. Only `create_pitch_deck` cuts it into
  bullets.
- Everything up to the first `.` of a line is dropped, and the content also
  loses leading `-` and space characters.
- The fallback happens only when no line yields a slide. A reply in which one
  line matches keeps that slide, and every other line is dropped
  (`OutlineFallback`, `OutlineFound`).

## Model

| member | source | states |
|---|---|---|
| Generator.Lines | startup_cofounder_agent/generator.py:211 | `raw.splitlines()` as a cut at every line-boundary character: one more line than there are boundaries; `SplitPieces`, `ParsedJoinedText`, `OneLine` and `SplitJoin` say how the cut behaves |
| Generator.ParseLine | startup_cofounder_agent/generator.py:213-224 | the loop body on one line: nothing for a blank line, for a line without `.` or for one without `:` after the first `.`; otherwise the slide cut at the first `.` and the first `:` after it. Characterised by `ParseLineFields`, `ParseLineNoDot`, `ParseLineNoColon`, `ParseLineBlank` and `ParseLineShape` |
| Generator.Content | startup_cofounder_agent/generator.py:223 | `content.strip().lstrip("- ")`, with `lstrip` as a character-set strip; its shape is stated by `ContentShape` |
| Generator.Fallback | startup_cofounder_agent/generator.py:227 | the one slide titled `Pitch Deck` whose content is the reply unchanged; `OutlineFallback` says when it is the result |
| Generator.ParseOutline | startup_cofounder_agent/generator.py:208-230 | the loop over the reply's lines returns exactly `Outline(raw)`, and never an empty list |
| Generator.Outline | startup_cofounder_agent/generator.py:226-230 | the parser always returns at least one slide |
| Generator.ParseLineFields | startup_cofounder_agent/generator.py:216-224 | a line `prefix.mid:post` whose prefix has no dot and whose `mid` has no colon yields the slide with title `mid` stripped and content `post` stripped and cleared of leading `-`/space: the cut is at the first dot and the first colon after it |
| Generator.ParseLineNoDot | startup_cofounder_agent/generator.py:216 | a line without a `.` yields nothing |
| Generator.ParseLineNoColon | startup_cofounder_agent/generator.py:216-220 | a line whose text after the first dot has no `:` yields nothing |
| Generator.ParseLineWithoutColon | startup_cofounder_agent/generator.py:220 | a line without a `:` yields nothing |
| Generator.ParseLineBlank | startup_cofounder_agent/generator.py:213-214 | a line made only of whitespace yields nothing |
| Generator.ContentShape | startup_cofounder_agent/generator.py:223 | the kept content is no longer than its text, does not start with `-` or a space, and does not end in whitespace |
| Generator.ParseLineShape | startup_cofounder_agent/generator.py:216-224 | a slide's title has no `:` and no surrounding whitespace, its content has the shape above, and title and content together are shorter than their line |
| Generator.ParseFormatted | startup_cofounder_agent/generator.py:212-224 | a line written in the format the parser expects (`<n>. <title>: <content>`) parses back to exactly the slide it was written from, when the number has no dot, the title no colon, both parts are already stripped and the content does not start with `-` |
| Generator.CollectFrom | startup_cofounder_agent/generator.py:211-224 | every slide collected comes from one of the lines |
| Generator.CollectEmpty | startup_cofounder_agent/generator.py:211-224 | nothing is collected exactly when no line yields a slide |
| Generator.CollectAppend | startup_cofounder_agent/generator.py:211-224 | slides keep the order of their lines: collecting from two runs of lines gives the first run's slides followed by the second's |
| Generator.CollectAllFound | startup_cofounder_agent/generator.py:211-224 | when every line yields a slide there is one slide per line, the i-th from the i-th line |
| Generator.ParsedAtMostNonBlank | startup_cofounder_agent/generator.py:213-224 | at most one slide per non-blank line |
| Generator.OutlineFallback | startup_cofounder_agent/generator.py:226-227 | the result is the fallback slide (`Pitch Deck`, the reply unchanged) exactly when no line yields a slide |
| Generator.OutlineFound | startup_cofounder_agent/generator.py:224-227 | once a line yields a slide, the result is exactly the slides of the lines, with no fallback slide, and there are at most as many slides as non-blank lines |
| Generator.OutlineWithoutDot | startup_cofounder_agent/generator.py:216-227 | a reply without a `.` falls back |
| Generator.OutlineWithoutColon | startup_cofounder_agent/generator.py:220-227 | a reply without a `:` falls back |
| Generator.OutlineOfWhitespace | startup_cofounder_agent/generator.py:213-227 | an empty or whitespace-only reply falls back |
| Generator.ParsedJoinedText | startup_cofounder_agent/generator.py:211 | the slides of two texts joined by a newline are those of the first followed by those of the second |
| Generator.OutlineOfWellFormedLines | startup_cofounder_agent/generator.py:211-227 | lines that each yield a slide, joined by newlines, give one slide per line, in order |
| GeneratorExamples.OneLine | startup_cofounder_agent/generator.py:211 | text without a line-boundary character is a single line |
| GeneratorExamples.OutlineOfFormattedLine | startup_cofounder_agent/generator.py:212 | a one-line reply in the format of the inline comment (`1. Title: point1; point2; point3`) is an outline of exactly that slide, when the number and slide meet `ParseFormatted`'s conditions and the line holds no line-boundary character |
| GeneratorExamples.ExampleUnnumbered | startup_cofounder_agent/generator.py:226-227 | `"Slide one stuff\nmore stuff"` becomes the single fallback slide holding it unchanged |
| GeneratorExamples.ExampleEmpty | startup_cofounder_agent/generator.py:226-227 | the empty reply becomes the fallback slide with empty content |
| Text.SplitOnce | startup_cofounder_agent/generator.py:216-217 | `c in s` followed by `s.split(c, 1)`: the text before and after the first `c`, or nothing; characterised by `SplitOnceFacts` and `SplitOnceIs` |
| Text.Strip | startup_cofounder_agent/generator.py:218 | `s.strip()` over the full `str.isspace` set, as a strip of both ends; characterised by `TrimIs`, `TrimFacts` and `StripShape` |
| Text.LStrip | startup_cofounder_agent/generator.py:223 | `s.lstrip(chars)` as a strip of every leading character in the set; characterised by `LStripFacts` |
| Text.Split | startup_cofounder_agent/ppt_generator.py:61 | `s.split(sep)`, generalised to a set of separators; characterised by `SplitPieces`, `SplitCount`, `SplitAround`, `JoinSplit` and `SplitJoin` |
| Text.Replace | startup_cofounder_agent/ppt_generator.py:61 | `s.replace(";", "\n")` for one character by another, position by position; characterised by `ReplaceAround` |
| Text.FindFacts | startup_cofounder_agent/generator.py:216 | the search for a character stops at the first character of the set, or at the end when there is none |
| Text.FindIs | startup_cofounder_agent/ppt_generator.py:54-55 | the placeholder loop stops exactly at the first placeholder of a wanted kind, or after the last one when there is none |
| Text.SplitOnceFacts | startup_cofounder_agent/generator.py:216-217 | `split(c, 1)` succeeds exactly when `c` occurs, and it cuts at the first `c` |
| Text.SplitOnceIs | startup_cofounder_agent/generator.py:221 | when the first part has no `c`, `split(c, 1)` gives back exactly that first part and the rest |
| Text.LStripFacts | startup_cofounder_agent/generator.py:223 | `lstrip` keeps a suffix, and everything it drops is in the character set, and what it keeps does not start with such a character |
| Text.RStripFacts | startup_cofounder_agent/generator.py:218 | `rstrip` keeps a prefix, everything it drops is whitespace, and what it keeps does not end in whitespace |
| Text.TrimIs | startup_cofounder_agent/generator.py:222 | `strip` returns the slice between the first and last characters it does not remove |
| Text.TrimFacts | startup_cofounder_agent/generator.py:213 | `strip` never lengthens, leaves no removable character at either end, gives the empty text exactly when every character is removable, and keeps every other character |
| Text.BlankIff | startup_cofounder_agent/generator.py:213 | `not line.strip()` holds exactly when every character is whitespace, and for the empty text |
| Text.StripShape | startup_cofounder_agent/generator.py:222 | the result of `strip()` has no whitespace at either end and only characters of its input |
| Text.SplitPieces | startup_cofounder_agent/generator.py:211 | no piece of a split holds a separator, and every character of a piece comes from the text |
| Text.SplitCount | startup_cofounder_agent/ppt_generator.py:61 | a split gives one more piece than there are separators |
| Text.SplitAround | startup_cofounder_agent/generator.py:211 | a separator splits the text into the pieces before it followed by the pieces after it |
| Text.JoinSplit | startup_cofounder_agent/ppt_generator.py:61 | joining the pieces of `split(sep)` with `sep` gives the text back |
| Text.SplitJoin | startup_cofounder_agent/generator.py:211 | splitting pieces joined with a separator they do not hold gives the pieces back |
| PptGenerator.Deck | startup_cofounder_agent/ppt_generator.py:35-47 | the deck a list of dictionaries makes: `NoSlides` for an empty list, `MissingLayout` when the template lacks a layout, otherwise one page per dictionary in order. Characterised by `DeckFailure`, `DeckPages`, `DeckIs` and `DeckOfOutline` |
| PptGenerator.LayoutIndex | startup_cofounder_agent/ppt_generator.py:43-46 | layout 0 for the slide at index 0 and layout 1 for every later slide; `DeckPages` states it of every page of the deck |
| PptGenerator.Get | startup_cofounder_agent/ppt_generator.py:40-41 | `slide_data.get(key, "")`: the value, or the empty text for a missing key; `RecordFields` and `EmptyRecordPage` use it |
| PptGenerator.Fill | startup_cofounder_agent/ppt_generator.py:47-74 | the texts of a new slide's placeholders after the title setter and the placeholder loop; characterised by `FillShape`, `TitleKept`, `BulletsInBody` and `TitleOverwrittenAsWritten` |
| PptGenerator.Segments | startup_cofounder_agent/ppt_generator.py:61 | `content.replace(";", "\n").split("\n")`: the pieces between separators |
| PptGenerator.NonBlankStripped | startup_cofounder_agent/ppt_generator.py:61 | the comprehension's filter: each non-blank piece, stripped, in order; characterised by `NonBlankStrippedAppend` and `NonBlankStrippedShape` |
| PptGenerator.Bullets | startup_cofounder_agent/ppt_generator.py:61 | the bullets of a content string; characterised by `BulletsWellFormed`, `BulletsAround`, `BulletsJoin`, `BulletsEmpty` and `BulletsCount` |
| PptGenerator.CreatePitchDeck | startup_cofounder_agent/ppt_generator.py:22-74 | the loop over the dictionaries returns exactly `Deck(records, template, body)` for the placeholder kinds `body` it looks for; with `AsWrittenBodyKinds` it is the code as written, with `BodyKinds` the corrected test |
| PptGenerator.DeckIs | startup_cofounder_agent/ppt_generator.py:39-47 | a list holding the slide for each dictionary, in order, is the deck |
| PptGenerator.DeckFailure | startup_cofounder_agent/ppt_generator.py:35-46 | an empty list is refused, and only an empty list; otherwise a deck is made exactly when the template has every layout the slides ask for |
| PptGenerator.DeckPages | startup_cofounder_agent/ppt_generator.py:39-47 | one slide per dictionary, in order; the first uses layout 0 and every later one layout 1; each is filled from its own dictionary's title and content, or the empty text when a key is missing |
| PptGenerator.Records | startup_cofounder_agent/generator.py:224 | the outline becomes one dictionary per slide |
| PptGenerator.RecordFields | startup_cofounder_agent/ppt_generator.py:40-41 | a parser dictionary has exactly the keys `title` and `content`, and `.get` reads back the slide's own title and content |
| PptGenerator.EmptyRecordPage | startup_cofounder_agent/ppt_generator.py:40-63 | a dictionary without keys gives an empty title and a body cleared to one empty paragraph |
| PptGenerator.FillShape | startup_cofounder_agent/ppt_generator.py:47-74 | a slide has one text per placeholder. The first placeholder of a body kind gets the bullets, or one empty paragraph when there are none. The title shape gets the title unless the bullets went there. Every other placeholder stays empty |
| PptGenerator.TitleKept | startup_cofounder_agent/ppt_generator.py:49-55 | with the intended body kinds, a well-formed layout's title shape keeps the title |
| PptGenerator.BulletsInBody | startup_cofounder_agent/ppt_generator.py:54-70 | with the intended body kinds, the bullets go into the first body or object placeholder, which is never the title shape |
| PptGenerator.TitleOverwrittenAsWritten | startup_cofounder_agent/ppt_generator.py:49-58 | as written, on a layout with a title and then an object placeholder, the bullets replace the title and the object placeholder stays empty; with the intended kinds each gets its own text |
| PptGenerator.DeckOfOutline | startup_cofounder_agent/ppt_generator.py:35-50 | every outline the parser returns makes a deck with a two-layout template, whichever kinds the placeholder loop looks for, with one slide per outline slide; with the corrected kinds each well-formed title shape holds its slide's title |
| PptGenerator.ReplaceAround | startup_cofounder_agent/ppt_generator.py:61 | `replace` acts on each side of a character separately |
| PptGenerator.NonBlankStrippedAppend | startup_cofounder_agent/ppt_generator.py:61 | the comprehension keeps the order of its pieces: two runs of pieces are filtered separately |
| PptGenerator.NonBlankStrippedShape | startup_cofounder_agent/ppt_generator.py:61 | every kept piece is non-empty, stripped, and made of the pieces' characters |
| PptGenerator.BulletsOfPlain | startup_cofounder_agent/ppt_generator.py:61 | text without `;` or a line feed gives no bullet when it is blank, and otherwise the one bullet that is itself stripped |
| PptGenerator.BulletsAround | startup_cofounder_agent/ppt_generator.py:61 | `;` and a line feed cut alike: the bullets before the separator, then those after it |
| PptGenerator.BulletsCut | startup_cofounder_agent/ppt_generator.py:61 | any separator in the content divides its bullets into those before and those after it |
| PptGenerator.BulletsWellFormed | startup_cofounder_agent/ppt_generator.py:61 | every bullet is non-empty and stripped, holds no `;` or line feed, and is made of the content's characters |
| PptGenerator.BulletOfItem | startup_cofounder_agent/ppt_generator.py:61 | a well-formed bullet on its own is its only bullet |
| PptGenerator.BulletsJoin | startup_cofounder_agent/ppt_generator.py:61 | well-formed bullets written with `;` or a line feed between them are cut back into exactly those bullets |
| PptGenerator.PlainBulletsEmpty | startup_cofounder_agent/ppt_generator.py:61-63 | text without a separator has no bullet exactly when it is all whitespace |
| PptGenerator.BulletsEmpty | startup_cofounder_agent/ppt_generator.py:61-63 | a content has no bullets (the body stays cleared) exactly when it is made of whitespace and semicolons |
| PptGenerator.BulletsCount | startup_cofounder_agent/ppt_generator.py:61 | there is at most one more bullet than there are separators |

## Findings

| source | as written | input that shows it | evidently intended | confidence | as-written member | corrected member |
|---|---|---|---|---|---|---|
| startup_cofounder_agent/ppt_generator.py:55 | the body loop writes the bullets into the first placeholder whose type code equals 1, and 1 is the library's code for a title placeholder (body is 2, object is 7) | a second slide `{"title": "T", "content": "b"}` on a layout listing a title placeholder (1) and then an object placeholder (7): the title shape ends up holding `b` and the object placeholder stays empty | write the bullets into the body or content placeholder (type 2 or 7) and leave the title in the title shape | medium; not executed; rests on the presentation library numbering title placeholders 1, body 2 and object 7 | PptGenerator.TitleOverwrittenAsWritten | PptGenerator.TitleKept |

`Fill` and `Deck` take the placeholder kinds they look for as a parameter.
`AsWrittenBodyKinds` (`{1}`) models line 55 as written.
`BodyKinds` (`{2, 7}`) is the corrected version.
`CreatePitchDeck` takes the kinds as a parameter, so it runs either way.

## Left out

- The language-model call (`_chat_completion`), the prompt text and the other generators of `generator.py`, and `cli.py`: network I/O and string templates, outside the parser and the assembler.
- The `except Exception` branch (generator.py:228-229): no step of the modelled loop can raise on a string reply, so the model has no exception path; its result would be the same fallback slide.
- A reply holding a lone surrogate code point: a Python `str` can, a Dafny `char` cannot.
- `Lines`: it cuts at every line-boundary character, so `"\r\n"` and a final newline give extra empty lines that `str.splitlines` does not. Those lines are blank and skipped, so the parse is the same.
- `Presentation()`, `add_slide` and `prs.save(output_path)`: the library and the file it writes are represented by the `LayoutShape` template parameter and the returned `Page` list.
- Which placeholders a layout of the default template has, and which is its title shape: a fact of the library's template, taken as the `template` parameter.
- The text setter of the library turns a line feed inside a title or bullet into a paragraph break, and a vertical tab into a line break; a title is modelled as one paragraph. Bullets never hold a line feed (`BulletsWellFormed`).
- `paragraph.level = 0` (ppt_generator.py:72-73): formatting only, not part of `Page`.
- The `ValueError` message text: modelled as the error value `NoSlides`.
- A template with fewer layouts than the slides ask for raises an `IndexError` in the code; the model returns `MissingLayout` with the missing index instead.
