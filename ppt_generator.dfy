/**
 * `create_pitch_deck`: the slide dictionaries of an outline laid out as the
 * slides of a presentation. The first slide is added with layout 0 of the
 * template and every later one with layout 1; each slide's title goes into
 * its title shape and its content, cut into bullets at semicolons and line
 * feeds, into the first placeholder of the body kind. The presentation
 * library is represented by what its template provides (`LayoutShape`), and
 * the saved file by the texts written into each slide (`Page`).
 */
module PptGenerator {
  import opened Wrappers
  import opened Text
  import opened Generator

  /** One slide dictionary; keys other than `"title"` and `"content"` are ignored. */
  type Record = map<string, string>

  /** Why no deck is made: an empty list (the `ValueError`), or a layout the template lacks. */
  datatype DeckError = NoSlides | MissingLayout(index: nat)

  /**
   * What a layout of the template puts on a slide added with it: the type
   * code of each placeholder, in the order the slide lists them, and the
   * position of the one that is the slide's title shape, if it has one.
   */
  datatype LayoutShape = LayoutShape(title: Option<nat>, kinds: seq<int>)

  /**
   * A slide of the deck: the layout it was added with and the paragraphs of
   * each placeholder, `[]` for a placeholder nothing was written into.
   */
  datatype Page = Page(layout: nat, texts: seq<seq<string>>)

  // Placeholder type codes, numbered as the presentation library numbers them.
  const TitleKind: int := 1
  const BodyKind: int := 2
  const CenterTitleKind: int := 3
  const VerticalTitleKind: int := 5
  const ObjectKind: int := 7

  /** The kinds a title shape has. */
  const TitleKinds: set<int> := {TitleKind, CenterTitleKind, VerticalTitleKind}

  /** The kinds the body loop picks as written: the test `type == 1`, which is the title kind. */
  const AsWrittenBodyKinds: set<int> := {1}

  /** The kinds it is meant to pick: a body placeholder, or the object placeholder a content layout has. */
  const BodyKinds: set<int> := {BodyKind, ObjectKind}

  /** The characters bullets are cut at. */
  const Separators: set<char> := {';', '\n'}

  /** A layout whose title shape, if any, is one of its placeholders and of a title kind. */
  predicate WellFormedLayout(shape: LayoutShape) {
    shape.title.Some? ==> shape.title.value < |shape.kinds| && shape.kinds[shape.title.value] in TitleKinds
  }

  /** `slide_data.get(key, "")`. */
  function Get(r: Record, key: string): string {
    if key in r then r[key] else ""
  }

  /** The dictionary the outline parser builds for a slide. */
  function SlideRecord(s: Slide): Record {
    map["title" := s.title, "content" := s.content]
  }

  /** The dictionaries of a whole outline, in order. */
  function Records(slides: seq<Slide>): (records: seq<Record>)
    ensures |records| == |slides|
  {
    seq(|slides|, i requires 0 <= i < |slides| => SlideRecord(slides[i]))
  }

  /** The layout of the slide at `index`: the title-slide layout first, the content layout after. */
  function LayoutIndex(index: nat): nat {
    if index == 0 then 0 else 1
  }

  /** `content.replace(";", "\n").split("\n")`. */
  function Segments(content: string): seq<string> {
    Split(Replace(content, ';', '\n'), {'\n'})
  }

  /** `[line.strip() for line in pieces if line.strip()]`. */
  function NonBlankStripped(pieces: seq<string>): seq<string> {
    if pieces == [] then []
    else (if Blank(pieces[0]) then [] else [Strip(pieces[0])]) + NonBlankStripped(pieces[1..])
  }

  /** The bullet points of a slide's content. */
  function Bullets(content: string): seq<string> {
    NonBlankStripped(Segments(content))
  }

  /**
   * The paragraphs of the body placeholder once it is cleared and the
   * bullets are written: one empty paragraph when there are no bullets.
   */
  function BodyText(bullets: seq<string>): seq<string> {
    if bullets == [] then [""] else bullets
  }

  /**
   * The placeholders of a slide added with `shape`, after the title is set
   * and the bullets are written into the first placeholder of a kind in `body`.
   */
  function Fill(shape: LayoutShape, title: string, content: string, body: set<int>): seq<seq<string>> {
    var blank: seq<seq<string>> := seq(|shape.kinds|, _ => []);
    var titled := if shape.title.Some? && shape.title.value < |blank| then blank[shape.title.value := [title]] else blank;
    var k := Find(shape.kinds, body);
    if k < |titled| then titled[k := BodyText(Bullets(content))] else titled
  }

  /** The slide made for the dictionary at `index`. */
  function PageFor(index: nat, r: Record, template: seq<LayoutShape>, body: set<int>): Page
    requires LayoutIndex(index) < |template|
  {
    var layout := LayoutIndex(index);
    Page(layout, Fill(template[layout], Get(r, "title"), Get(r, "content"), body))
  }

  /** The deck made from a list of slide dictionaries, with the template's layouts. */
  function Deck(records: seq<Record>, template: seq<LayoutShape>, body: set<int>): Result<seq<Page>, DeckError> {
    if records == [] then Failure(NoSlides)
    else if |template| == 0 then Failure(MissingLayout(0))
    else if |records| > 1 && |template| == 1 then Failure(MissingLayout(1))
    else Success(seq(|records|, i requires 0 <= i < |records| => PageFor(i, records[i], template, body)))
  }

  /**
   * `create_pitch_deck`, up to saving the file: one slide per dictionary, in
   * order. `body` holds the placeholder kinds the inner loop looks for:
   * `AsWrittenBodyKinds` is the code as written, `BodyKinds` the corrected test.
   */
  method CreatePitchDeck(records: seq<Record>, template: seq<LayoutShape>, body: set<int>) returns (deck: Result<seq<Page>, DeckError>)
    ensures deck == Deck(records, template, body)
  {
    if records == [] {
      return Failure(NoSlides);
    }
    var pages: seq<Page> := [];
    for index := 0 to |records|
      invariant |pages| == index
      invariant index > 0 ==> |template| >= 1
      invariant index > 1 ==> |template| >= 2
      invariant forall i :: 0 <= i < index ==> LayoutIndex(i) < |template| && pages[i] == PageFor(i, records[i], template, body)
    {
      var layout := LayoutIndex(index);
      if layout >= |template| {
        return Failure(MissingLayout(layout));
      }
      var title := Get(records[index], "title");
      var content := Get(records[index], "content");
      var shape := template[layout];
      var texts: seq<seq<string>> := seq(|shape.kinds|, _ => []);
      if shape.title.Some? && shape.title.value < |texts| {
        texts := texts[shape.title.value := [title]];
      }
      var k := 0;
      while k < |shape.kinds| && shape.kinds[k] !in body
        invariant k <= |shape.kinds|
        invariant forall j :: 0 <= j < k ==> shape.kinds[j] !in body
      {
        k := k + 1;
      }
      FindIs(shape.kinds, body, k);
      if k < |shape.kinds| {
        var lines := Bullets(content);
        texts := texts[k := if lines == [] then [""] else lines];
      }
      assert texts == Fill(shape, title, content, body);
      pages := pages + [Page(layout, texts)];
    }
    DeckIs(records, template, body, pages);
    return Success(pages);
  }

  /** A list holding the slide of each dictionary, in order, is the deck. */
  lemma DeckIs(records: seq<Record>, template: seq<LayoutShape>, body: set<int>, pages: seq<Page>)
    requires records != [] && |pages| == |records|
    requires forall i :: 0 <= i < |records| ==> LayoutIndex(i) < |template| && pages[i] == PageFor(i, records[i], template, body)
    ensures Deck(records, template, body) == Success(pages)
  {
    assert LayoutIndex(0) < |template|;
    if |records| > 1 {
      assert LayoutIndex(1) < |template|;
    }
    var d := seq(|records|, i requires 0 <= i < |records| => PageFor(i, records[i], template, body));
    assert d == pages;
  }

  // `Fill`.

  /**
   * A slide has one text per placeholder: the bullets in the first
   * placeholder of a kind in `body`, the title in the title shape unless the
   * bullets went there, and nothing in any other placeholder.
   */
  lemma FillShape(shape: LayoutShape, title: string, content: string, body: set<int>)
    ensures var texts, k := Fill(shape, title, content, body), Find(shape.kinds, body);
      && |texts| == |shape.kinds|
      && (forall j :: 0 <= j < k ==> shape.kinds[j] !in body)
      && (k < |texts| ==> shape.kinds[k] in body && texts[k] == BodyText(Bullets(content)))
      && (shape.title.Some? && shape.title.value < |texts| && shape.title.value != k ==> texts[shape.title.value] == [title])
      && (forall j :: 0 <= j < |texts| && j != k && shape.title != Some(j) ==> texts[j] == [])
  {
    FindFacts(shape.kinds, body);
  }

  /** With the intended body kinds, the title shape of a well-formed layout keeps the title. */
  lemma TitleKept(shape: LayoutShape, title: string, content: string)
    requires WellFormedLayout(shape) && shape.title.Some?
    ensures Fill(shape, title, content, BodyKinds)[shape.title.value] == [title]
  {
    FillShape(shape, title, content, BodyKinds);
    var t := shape.title.value;
    assert shape.kinds[t] !in BodyKinds;
  }

  /** With the intended body kinds, the bullets go into the first body or object placeholder, never the title shape. */
  lemma BulletsInBody(shape: LayoutShape, title: string, content: string, k: nat)
    requires WellFormedLayout(shape)
    requires k < |shape.kinds| && shape.kinds[k] in BodyKinds
    requires forall j :: 0 <= j < k ==> shape.kinds[j] !in BodyKinds
    ensures Fill(shape, title, content, BodyKinds)[k] == BodyText(Bullets(content))
    ensures shape.title != Some(k)
  {
    FindIs(shape.kinds, BodyKinds, k);
    FillShape(shape, title, content, BodyKinds);
  }

  /**
   * As written, on a content layout whose placeholders are a title and an
   * object placeholder, the bullets replace the title and the object
   * placeholder stays empty; with the intended kinds each gets its own text.
   */
  lemma TitleOverwrittenAsWritten()
    ensures Fill(LayoutShape(Some(0), [TitleKind, ObjectKind]), "T", "b", AsWrittenBodyKinds) == [["b"], []]
    ensures Fill(LayoutShape(Some(0), [TitleKind, ObjectKind]), "T", "b", BodyKinds) == [["T"], ["b"]]
  {
    var shape := LayoutShape(Some(0), [TitleKind, ObjectKind]);
    BulletsOfPlain("b");
    TrimIs("b", IsSpace, 0, 1);
    FindIs(shape.kinds, AsWrittenBodyKinds, 0);
    FindIs(shape.kinds, BodyKinds, 1);
  }

  // The deck.

  /**
   * No deck is made from an empty list; otherwise one is made exactly when
   * the template has every layout the slides ask for.
   */
  lemma DeckFailure(records: seq<Record>, template: seq<LayoutShape>, body: set<int>)
    ensures Deck(records, template, body) == Failure(NoSlides) <==> records == []
    ensures Deck(records, template, body).Success?
        <==> records != [] && forall i :: 0 <= i < |records| ==> LayoutIndex(i) < |template|
  {
    if records != [] && |template| == 1 && |records| > 1 {
      assert LayoutIndex(1) >= |template|;
    }
    if records != [] && |template| == 0 {
      assert LayoutIndex(0) >= |template|;
    }
  }

  /**
   * A deck has one slide per dictionary, in order: the first with layout 0,
   * every other with layout 1, each filled from its own dictionary's title
   * and content (the empty text for a missing key).
   */
  lemma DeckPages(records: seq<Record>, template: seq<LayoutShape>, body: set<int>)
    requires Deck(records, template, body).Success?
    ensures var pages := Deck(records, template, body).value;
      && |pages| == |records|
      && pages[0].layout == 0
      && (forall i :: 1 <= i < |pages| ==> pages[i].layout == 1)
      && forall i :: 0 <= i < |pages| ==>
           var r := records[i];
           pages[i].texts == Fill(template[pages[i].layout],
             if "title" in r then r["title"] else "", if "content" in r then r["content"] else "", body)
  {
  }

  /** A dictionary without keys gives a slide with an empty title and a cleared body. */
  lemma EmptyRecordPage(shape: LayoutShape, body: set<int>)
    ensures var texts, k := Fill(shape, Get(map[], "title"), Get(map[], "content"), body), Find(shape.kinds, body);
      && (k < |texts| ==> texts[k] == [""])
      && (shape.title.Some? && shape.title.value < |texts| && shape.title.value != k ==> texts[shape.title.value] == [""])
  {
    FillShape(shape, "", "", body);
    BulletsOfPlain("");
    BlankIff("");
  }

  /** The dictionaries of an outline give back each slide's title and content. */
  lemma RecordFields(s: Slide)
    ensures Get(SlideRecord(s), "title") == s.title && Get(SlideRecord(s), "content") == s.content
    ensures SlideRecord(s).Keys == {"title", "content"}
  {
  }

  /**
   * Every outline the parser produces makes a deck with a two-layout
   * template, whichever kinds the placeholder loop looks for: one slide per
   * outline slide. With the corrected kinds each keeps its own title in a
   * well-formed title shape.
   */
  lemma DeckOfOutline(raw: string, template: seq<LayoutShape>, body: set<int>)
    requires |template| >= 2
    ensures var slides, deck := Outline(raw), Deck(Records(Outline(raw)), template, body);
      && deck.Success?
      && |deck.value| == |slides|
      && (body == BodyKinds ==> forall i :: 0 <= i < |slides| ==>
           var shape := template[LayoutIndex(i)];
           WellFormedLayout(shape) && shape.title.Some? ==>
             deck.value[i].texts[shape.title.value] == [slides[i].title])
  {
    var slides := Outline(raw);
    var records := Records(slides);
    forall i | 0 <= i < |slides| && body == BodyKinds
      ensures var shape := template[LayoutIndex(i)];
        WellFormedLayout(shape) && shape.title.Some? ==>
          Deck(records, template, body).value[i].texts[shape.title.value] == [slides[i].title]
    {
      var shape := template[LayoutIndex(i)];
      RecordFields(slides[i]);
      if WellFormedLayout(shape) && shape.title.Some? {
        TitleKept(shape, slides[i].title, slides[i].content);
      }
    }
  }

  // Bullets.

  /** `replace` of one character commutes with cutting the text around a character. */
  lemma ReplaceAround(a: string, c: char, b: string, from: char, to: char)
    ensures Replace(a + [c] + b, from, to)
         == Replace(a, from, to) + [if c == from then to else c] + Replace(b, from, to)
  {
    var s := a + [c] + b;
    var lhs, rhs := Replace(s, from, to), Replace(a, from, to) + [if c == from then to else c] + Replace(b, from, to);
    assert |lhs| == |rhs|;
    forall k | 0 <= k < |s| ensures lhs[k] == rhs[k] {
      if k < |a| {
        assert s[k] == a[k];
      } else if k > |a| {
        assert s[k] == b[k - |a| - 1];
      }
    }
  }

  /** Filtering and stripping a concatenation of piece lists treats the two lists apart. */
  lemma {:induction false} NonBlankStrippedAppend(x: seq<string>, y: seq<string>)
    ensures NonBlankStripped(x + y) == NonBlankStripped(x) + NonBlankStripped(y)
    decreases |x|
  {
    if x == [] {
      assert x + y == y;
    } else {
      assert (x + y)[0] == x[0];
      assert (x + y)[1..] == x[1..] + y;
      NonBlankStrippedAppend(x[1..], y);
    }
  }

  /** Text without a separator is one bullet, its stripped self, or none when it is blank. */
  lemma BulletsOfPlain(t: string)
    requires forall k :: 0 <= k < |t| ==> t[k] !in Separators
    ensures Bullets(t) == if Blank(t) then [] else [Strip(t)]
  {
    forall k | 0 <= k < |t| ensures t[k] != ';' && t[k] != '\n' {
      assert t[k] !in Separators;
    }
    assert Replace(t, ';', '\n') == t;
    FindIs(t, {'\n'}, |t|);
    assert Segments(t) == [t];
    assert [t][1..] == [];
    assert NonBlankStripped([t]) == (if Blank(t) then [] else [Strip(t)]) + NonBlankStripped([]);
  }

  /** A semicolon and a line feed cut alike: the bullets on either side of one, in order. */
  lemma BulletsAround(a: string, sep: char, b: string)
    requires sep in Separators
    ensures Bullets(a + [sep] + b) == Bullets(a) + Bullets(b)
  {
    ReplaceAround(a, sep, b, ';', '\n');
    var ra, rb := Replace(a, ';', '\n'), Replace(b, ';', '\n');
    SplitAround(ra, '\n', rb, {'\n'});
    NonBlankStrippedAppend(Split(ra, {'\n'}), Split(rb, {'\n'}));
  }

  /** A separator cuts the bullets of a text into those before it and those after it. */
  lemma BulletsCut(content: string, i: nat)
    requires i < |content| && content[i] in Separators
    ensures Bullets(content) == Bullets(content[..i]) + Bullets(content[i + 1..])
  {
    var a, c, b := content[..i], content[i], content[i + 1..];
    assert content == a + [c] + b;
    BulletsAround(a, c, b);
  }

  /** Each bullet is not empty, is stripped, holds no separator, and is made of the content's characters. */
  lemma BulletsWellFormed(content: string)
    ensures forall b <- Bullets(content) ::
      b != [] && Stripped(b) && forall c <- b :: c in content && c !in Separators
  {
    var replaced := Replace(content, ';', '\n');
    SplitPieces(replaced, {'\n'});
    forall p <- Segments(content), c <- p
      ensures c in content && c !in Separators
    {
      assert c in replaced && c != '\n';
      var k :| 0 <= k < |replaced| && replaced[k] == c;
      assert content[k] == c;
    }
    NonBlankStrippedShape(Segments(content), content);
  }

  /** The stripped non-blank pieces are not empty, are stripped and keep to the pieces' characters. */
  lemma {:induction false} NonBlankStrippedShape(pieces: seq<string>, content: string)
    requires forall p <- pieces, c <- p :: c in content && c !in Separators
    ensures forall b <- NonBlankStripped(pieces) ::
      b != [] && Stripped(b) && forall c <- b :: c in content && c !in Separators
    decreases |pieces|
  {
    if pieces != [] {
      var p := pieces[0];
      assert forall q <- pieces[1..] :: q in pieces;
      NonBlankStrippedShape(pieces[1..], content);
      StripShape(p);
    }
  }

  /** A bullet on its own is its only bullet. */
  lemma BulletOfItem(b: string)
    requires b != [] && Stripped(b) && forall k :: 0 <= k < |b| ==> b[k] !in Separators
    ensures Bullets(b) == [b]
  {
    BulletsOfPlain(b);
    TrimIs(b, IsSpace, 0, |b|);
  }

  /** Bullets written out with one separator between each two are cut back into exactly those bullets. */
  lemma {:induction false} BulletsJoin(items: seq<string>, sep: char)
    requires sep in Separators
    requires forall b <- items :: b != [] && Stripped(b) && forall k :: 0 <= k < |b| ==> b[k] !in Separators
    ensures Bullets(Join(items, sep)) == items
    decreases |items|
  {
    if items == [] {
      BulletsOfPlain("");
      BlankIff("");
    } else if |items| == 1 {
      assert Join(items, sep) == items[0];
      BulletOfItem(items[0]);
    } else {
      var b, rest := items[0], items[1..];
      BulletOfItem(b);
      assert forall q <- rest :: q in items;
      BulletsJoin(rest, sep);
      JoinCons(b, rest, sep);
      assert [b] + rest == items;
      BulletsAround(b, sep, Join(rest, sep));
    }
  }

  /** Characters that never make a bullet: whitespace and the semicolon. */
  predicate Filler(c: char) {
    IsSpace(c) || c == ';'
  }

  /** Text without a separator has no bullet exactly when it is all whitespace. */
  lemma PlainBulletsEmpty(a: string)
    requires forall k :: 0 <= k < |a| ==> a[k] !in Separators
    ensures Bullets(a) == [] <==> AllIn(a, Filler)
  {
    BulletsOfPlain(a);
    TrimFacts(a, IsSpace);
    forall k | 0 <= k < |a| ensures Filler(a[k]) <==> IsSpace(a[k]) {
      assert a[k] !in Separators;
    }
  }

  /** A content has no bullets exactly when it is made of whitespace and semicolons. */
  lemma {:induction false} BulletsEmpty(content: string)
    ensures Bullets(content) == [] <==> AllIn(content, Filler)
    decreases |content|
  {
    var i := Find(content, Separators);
    FindFacts(content, Separators);
    if i == |content| {
      PlainBulletsEmpty(content);
    } else {
      var a, c, b := content[..i], content[i], content[i + 1..];
      BulletsCut(content, i);
      assert forall k :: 0 <= k < |a| ==> a[k] == content[k];
      PlainBulletsEmpty(a);
      BulletsEmpty(b);
      assert content == a + [c] + b;
      AllInAround(a, c, b, Filler);
      assert Filler(c);
    }
  }

  /** There are at most one more bullets than separators. */
  lemma {:induction false} BulletsCount(content: string)
    ensures |Bullets(content)| <= 1 + Count(content, Separators)
    decreases |content|
  {
    var i := Find(content, Separators);
    FindFacts(content, Separators);
    if i == |content| {
      BulletsOfPlain(content);
    } else {
      BulletsCut(content, i);
      var a, b := content[..i], content[i + 1..];
      BulletsOfPlain(a);
      BulletsCount(b);
      CountNone(a, Separators);
      assert content == a + [content[i]] + b;
      CountAppend(a + [content[i]], b, Separators);
      CountAppend(a, [content[i]], Separators);
      assert Count([content[i]], Separators) == 1 + Count([], Separators);
    }
  }
}
