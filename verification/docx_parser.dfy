/**
 * The body walk of `DocumentHandler.parse_docx`, over an abstract sequence
 * of blocks: paragraphs (their text and the images found in their runs) and
 * tables (their cell texts). Reading the file, extracting the images and
 * writing them to disk happen before the walk and are not modelled; an
 * image arrives as its path (absent when its relationship was not saved)
 * and its alternative text.
 *
 * As for `parse_text`, the walk is a left fold, here over the classified
 * blocks, and its result is related to a log of (section, element) pairs.
 */
module DocxParser {
  import opened Options
  import opened PyStr
  import opened ContentModel
  import opened Headings
  import opened Captions

  /** An inline picture: the saved file (if any) and the `descr` text. */
  datatype ImageRef = ImageRef(path: Option<string>, altText: string)

  /** A body element of the document, in XML order. */
  datatype Block =
    | Para(text: string, images: seq<ImageRef>)
    | TableBlock(rows: seq<seq<string>>)

  /**
   * What the loop does with a block: a heading paragraph, a paragraph with
   * images, any other paragraph, or a table. Paragraph texts are stripped.
   */
  datatype BlockKind =
    | HeadingPara(name: string, txt: string)
    | ImagePara(txt: string, images: seq<ImageRef>)
    | TextPara(txt: string)
    | TableKind(rows: seq<seq<string>>)

  /** `_detect_heading(txt) if txt else None`, kept only when truthy. */
  function HeadingOf(txt: string): (r: Option<string>)
    ensures r.Some? <==> txt != "" && SplitWords(Candidate(txt)) in HeadingPhrases
    ensures r.Some? ==> Lower(r.value) == Candidate(txt) && r.value == Title(Candidate(txt))
    ensures r.Some? ==> r == DetectHeading(txt)
  {
    DetectHeadingSpec(txt);
    if txt == "" then None
    else match DetectHeading(txt)
      case Some(h) => if h != "" then Some(h) else None
      case None => None
  }

  /** The branch the loop takes for one block. */
  function Classify(b: Block): (k: BlockKind)
    ensures k.TableKind? <==> b.TableBlock?
    ensures b.Para? ==> k.txt == Strip(b.text)
    ensures k.HeadingPara? <==> b.Para? && Strip(b.text) != "" && SplitWords(Candidate(Strip(b.text))) in HeadingPhrases
    ensures k.HeadingPara? ==> Lower(k.name) == Candidate(k.txt) && k.name == Title(Candidate(k.txt))
    ensures k.ImagePara? <==> b.Para? && b.images != [] && !k.HeadingPara? && !k.TextPara?
    ensures k.ImagePara? ==> k.images == b.images
    ensures k.TextPara? ==> b.images == []
  {
    match b
    case Para(text, images) =>
      var txt := Strip(text);
      if HeadingOf(txt).Some? then HeadingPara(HeadingOf(txt).value, txt)
      else if images != [] then ImagePara(txt, images)
      else TextPara(txt)
    case TableBlock(rows) => TableKind(rows)
  }

  /** The four branches of the loop body, read through the `HeadingOf` test it makes. */
  lemma ClassifyBranches(b: Block)
    ensures b.Para? && HeadingOf(Strip(b.text)).Some? ==> Classify(b) == HeadingPara(HeadingOf(Strip(b.text)).value, Strip(b.text))
    ensures b.Para? && HeadingOf(Strip(b.text)).None? && b.images != [] ==> Classify(b) == ImagePara(Strip(b.text), b.images)
    ensures b.Para? && HeadingOf(Strip(b.text)).None? && b.images == [] ==> Classify(b) == TextPara(Strip(b.text))
    ensures b.TableBlock? ==> Classify(b) == TableKind(b.rows)
  {
  }

  predicate GoodKind(k: BlockKind) {
    k.HeadingPara? ==> k.name != ""
  }

  predicate GoodKinds(ks: seq<BlockKind>) {
    forall i :: 0 <= i < |ks| ==> GoodKind(ks[i])
  }

  function Kinds(blocks: seq<Block>): (ks: seq<BlockKind>)
    ensures |ks| == |blocks| && GoodKinds(ks)
    ensures forall i :: 0 <= i < |blocks| ==> ks[i] == Classify(blocks[i])
  {
    seq(|blocks|, i requires 0 <= i < |blocks| => Classify(blocks[i]))
  }

  // ---------------------------------------------------------------- elements

  /** The element stored for an inline picture: not virtual, with the paragraph's caption. */
  function ImageElement(img: ImageRef, caption: Option<string>): (e: Element)
    ensures e.Image? && !e.virtual && e.caption == caption
    ensures e.path == img.path && e.altText == img.altText
  {
    Image(img.path, caption, img.altText, false)
  }

  /** One image element per picture, all with the same caption. */
  function ImageElements(imgs: seq<ImageRef>, caption: Option<string>): (es: seq<Element>)
    ensures |es| == |imgs|
    ensures forall i :: 0 <= i < |es| ==> es[i] == ImageElement(imgs[i], caption)
  {
    seq(|imgs|, i requires 0 <= i < |imgs| => ImageElement(imgs[i], caption))
  }

  /** `[c.text.strip() for c in r.cells]` for every row. */
  function StripCells(rows: seq<seq<string>>): (r: seq<seq<string>>)
    ensures |r| == |rows|
    ensures forall i :: 0 <= i < |r| ==> |r[i]| == |rows[i]|
    ensures forall i, j :: 0 <= i < |r| && 0 <= j < |r[i]| ==> r[i][j] == Strip(rows[i][j])
  {
    seq(|rows|, i requires 0 <= i < |rows| => seq(|rows[i]|, j requires 0 <= j < |rows[i]| => Strip(rows[i][j])))
  }

  /** Append the elements `es`, in order, to the section `name`. */
  function AppendAll(d: Doc, name: string, es: seq<Element>): (r: Doc)
    requires name in d.sections
    ensures r.order == d.order && r.sections.Keys == d.sections.Keys
    ensures WellFormed(d) ==> WellFormed(r)
    ensures Extends(r, d, Tagged(name, es))
    decreases |es|
  {
    if es == [] then d
    else
      var d' := Append(d, name, es[0]);
      var r := AppendAll(d', name, es[1..]);
      AppendExtends(d, name, es[0]);
      TaggedCons(name, es);
      ExtendsTrans(r, d', d, Tagged(name, es[1..]), [(name, es[0])]);
      r
  }

  /** The elements `es` as log entries for the section `name`. */
  function Tagged(name: string, es: seq<Element>): (log: seq<(string, Element)>)
    ensures |log| == |es|
    ensures forall i :: 0 <= i < |log| ==> log[i] == (name, es[i])
  {
    seq(|es|, i requires 0 <= i < |es| => (name, es[i]))
  }

  lemma TaggedCons(name: string, es: seq<Element>)
    requires es != []
    ensures Tagged(name, es) == [(name, es[0])] + Tagged(name, es[1..])
  {
  }

  /** Appending one element extends by a one-entry log. */
  lemma AppendExtends(d: Doc, name: string, e: Element)
    requires name in d.sections
    ensures Extends(Append(d, name, e), d, [(name, e)])
  {
    forall n ensures SectionOr(Append(d, name, e), n) == SectionOr(d, n) + Group([(name, e)], n) {
      GroupSnoc([], name, e, n);
      assert [] + [(name, e)] == [(name, e)];
    }
  }

  /** A model with the same content as before extends it by an empty log. */
  lemma ExtendsByNothing(after: Doc, before: Doc, log: seq<(string, Element)>)
    requires log == []
    requires forall n :: SectionOr(after, n) == SectionOr(before, n)
    ensures Extends(after, before, log)
  {
    forall n ensures SectionOr(after, n) == SectionOr(before, n) + Group(log, n) {
      assert SectionOr(before, n) + [] == SectionOr(before, n);
    }
  }

  /** All entries of a tagged log go to the one section. */
  lemma {:induction false} GroupTagged(name: string, es: seq<Element>, n: string)
    ensures Group(Tagged(name, es), n) == if n == name then es else []
    decreases |es|
  {
    if es != [] {
      var last := |es| - 1;
      var log := Tagged(name, es);
      TaggedPrefix(name, es);
      assert Group(log, n) == Group(Tagged(name, es[..last]), n) + (if name == n then [es[last]] else []);
      GroupTagged(name, es[..last], n);
      if n == name {
        TakeDrop(es, last);
        assert es[last..] == [es[last]];
      }
    }
  }

  lemma TaggedPrefix(name: string, es: seq<Element>)
    requires es != []
    ensures Tagged(name, es)[..|es| - 1] == Tagged(name, es[..|es| - 1])
    ensures Tagged(name, es)[|es| - 1] == (name, es[|es| - 1])
  {
  }

  // ---------------------------------------------------------------- the walk

  /** The loop state: the model, `current_section` and `self._last_text`. */
  datatype State = State(doc: Doc, current: string, lastText: Option<string>)

  predicate Valid(st: State) {
    WellFormed(st.doc) && st.current in st.doc.sections
  }

  /** Before the first block: one empty "Uncategorized" section, no previous text. */
  function Init(): (st: State)
    ensures Valid(st)
  {
    State(Start(), Uncategorized, None)
  }

  /** The caption every picture of a paragraph with stripped text `txt` gets. */
  function CaptionFor(lastText: Option<string>, txt: string): Option<string> {
    DetectCaption(lastText, Some(txt))
  }

  /** The elements one classified block adds to the current section. */
  function Added(k: BlockKind, lastText: Option<string>): seq<Element> {
    match k
    case HeadingPara(_, _) => []
    case ImagePara(txt, imgs) => ImageElements(imgs, CaptionFor(lastText, txt))
    case TextPara(txt) => if txt != "" then [Text(txt)] else []
    case TableKind(rows) => [Table(StripCells(rows))]
  }

  /** `self._last_text` after a block: every paragraph sets it, a table leaves it. */
  function NextLast(k: BlockKind, lastText: Option<string>): Option<string> {
    if k.TableKind? then lastText else Some(k.txt)
  }

  /** `current_section` after a block. */
  function NextSection(k: BlockKind, current: string): string {
    if k.HeadingPara? then k.name else current
  }

  /** One iteration of `for block in doc.element.body`. */
  function Step(st: State, k: BlockKind): (r: State)
    requires Valid(st) && GoodKind(k)
    ensures Valid(r)
    ensures r.current == NextSection(k, st.current) && r.lastText == NextLast(k, st.lastText)
    ensures r.doc.order == if k.HeadingPara? && k.name !in st.doc.sections then st.doc.order + [k.name] else st.doc.order
  {
    match k
    case HeadingPara(h, txt) => State(Enter(st.doc, h), h, Some(txt))
    case ImagePara(txt, imgs) =>
      var caption := DetectCaption(st.lastText, Some(txt));
      State(AppendAll(st.doc, st.current, ImageElements(imgs, caption)), st.current, Some(txt))
    case TextPara(txt) =>
      if txt != "" then State(Append(st.doc, st.current, Text(txt)), st.current, Some(txt))
      else State(st.doc, st.current, Some(txt))
    case TableKind(rows) =>
      State(Append(st.doc, st.current, Table(StripCells(rows))), st.current, st.lastText)
  }

  /** One block adds exactly its own elements, all to the section that was current. */
  lemma StepContent(st: State, k: BlockKind)
    requires Valid(st) && GoodKind(k)
    ensures Extends(Step(st, k).doc, st.doc, Tagged(st.current, Added(k, st.lastText)))
  {
    match k
    case HeadingPara(h, txt) =>
      ExtendsByNothing(Enter(st.doc, h), st.doc, Tagged(st.current, []));
    case ImagePara(txt, imgs) =>
    case TextPara(txt) =>
      if txt != "" {
        AppendExtends(st.doc, st.current, Text(txt));
      } else {
        ExtendsByNothing(st.doc, st.doc, Tagged(st.current, []));
      }
    case TableKind(rows) =>
      AppendExtends(st.doc, st.current, Table(StripCells(rows)));
  }

  /** The whole loop. */
  function Walk(st: State, ks: seq<BlockKind>): (r: State)
    requires Valid(st) && GoodKinds(ks)
    ensures Valid(r)
    decreases |ks|
  {
    if ks == [] then st else Walk(Step(st, ks[0]), ks[1..])
  }

  /** `parse_docx` on the classified blocks: the loop, then `_cleanup()`. */
  function ParseKinds(ks: seq<BlockKind>): (r: Doc)
    requires GoodKinds(ks)
    ensures Finalized(r)
  {
    Cleanup(Walk(Init(), ks).doc)
  }

  /** `parse_docx` on the blocks of a document body. */
  function ParseDocx(blocks: seq<Block>): (r: Doc)
    ensures Finalized(r)
  {
    ParseKinds(Kinds(blocks))
  }

  // ---------------------------------------------------------------- the reference description

  /**
   * The (section, element) pairs the blocks contribute, in order: each
   * block's elements go to the section of the last heading before it, and
   * pictures are captioned from the last paragraph before them.
   */
  function Log(ks: seq<BlockKind>, current: string, lastText: Option<string>): seq<(string, Element)>
    decreases |ks|
  {
    if ks == [] then []
    else Tagged(current, Added(ks[0], lastText)) + Log(ks[1..], NextSection(ks[0], current), NextLast(ks[0], lastText))
  }

  /** The heading names, in order, repeats included. */
  function HeadingNames(ks: seq<BlockKind>): seq<string>
    decreases |ks|
  {
    if ks == [] then []
    else (if ks[0].HeadingPara? then [ks[0].name] else []) + HeadingNames(ks[1..])
  }

  /**
   * The text of the last paragraph among `ks` (stripped), or `last` when
   * there is none: tables are skipped.
   */
  function LastParagraph(ks: seq<BlockKind>, last: Option<string>): (r: Option<string>)
    ensures r == last || exists i :: 0 <= i < |ks| && !ks[i].TableKind? && r == Some(ks[i].txt)
    decreases |ks|
  {
    if ks == [] then last
    else
      var k := ks[|ks| - 1];
      if k.TableKind? then LastParagraph(ks[..|ks| - 1], last) else Some(k.txt)
  }

  /** The loop adds to every section exactly its share of the log. */
  lemma {:induction false} WalkContent(st: State, ks: seq<BlockKind>)
    requires Valid(st) && GoodKinds(ks)
    ensures Extends(Walk(st, ks).doc, st.doc, Log(ks, st.current, st.lastText))
    decreases |ks|
  {
    if ks == [] {
      forall n ensures SectionOr(st.doc, n) == SectionOr(st.doc, n) + Group([], n) {
        assert SectionOr(st.doc, n) + [] == SectionOr(st.doc, n);
      }
    } else {
      var next := Step(st, ks[0]);
      WalkContent(next, ks[1..]);
      StepContent(st, ks[0]);
      ExtendsTrans(Walk(st, ks).doc, next.doc, st.doc,
        Log(ks[1..], next.current, next.lastText), Tagged(st.current, Added(ks[0], st.lastText)));
    }
  }

  /** The loop extends `order` by the heading names not seen before, in first-encounter order. */
  lemma {:induction false} WalkOrder(st: State, ks: seq<BlockKind>)
    requires Valid(st) && GoodKinds(ks)
    ensures Walk(st, ks).doc.order == AppendUnseen(st.doc.order, HeadingNames(ks))
    decreases |ks|
  {
    if ks != [] {
      var next := Step(st, ks[0]);
      assert Walk(st, ks) == Walk(next, ks[1..]);
      WalkOrder(next, ks[1..]);
      HeadingNamesHead(ks);
      StepOrder(st, ks[0]);
      if ks[0].HeadingPara? {
        AppendUnseenCons(st.doc.order, ks[0].name, HeadingNames(ks[1..]));
      }
    }
  }

  lemma HeadingNamesHead(ks: seq<BlockKind>)
    requires ks != []
    ensures ks[0].HeadingPara? ==> HeadingNames(ks) == [ks[0].name] + HeadingNames(ks[1..])
    ensures !ks[0].HeadingPara? ==> HeadingNames(ks) == HeadingNames(ks[1..])
  {
    assert [] + HeadingNames(ks[1..]) == HeadingNames(ks[1..]);
  }

  /** A heading enters `order` when it is new; no other block touches `order`. */
  lemma StepOrder(st: State, k: BlockKind)
    requires Valid(st) && GoodKind(k)
    ensures k.HeadingPara? ==>
      Step(st, k).doc.order == if k.name in st.doc.order then st.doc.order else st.doc.order + [k.name]
    ensures !k.HeadingPara? ==> Step(st, k).doc.order == st.doc.order
  {
    if k.HeadingPara? {
      assert k.name in st.doc.sections <==> k.name in Elems(st.doc.order);
    }
  }

  /** After the loop, `_last_text` is the last paragraph's stripped text; tables never set it. */
  lemma {:induction false} WalkLastText(st: State, ks: seq<BlockKind>)
    requires Valid(st) && GoodKinds(ks)
    ensures Walk(st, ks).lastText == LastParagraph(ks, st.lastText)
    decreases |ks|
  {
    if ks != [] {
      var next := Step(st, ks[0]);
      WalkLastText(next, ks[1..]);
      LastParagraphCons(ks, st.lastText);
    }
  }

  /** Looking for the last paragraph from the front: the first block only sets the fallback. */
  lemma {:induction false} LastParagraphCons(ks: seq<BlockKind>, last: Option<string>)
    requires ks != []
    ensures LastParagraph(ks, last) == LastParagraph(ks[1..], NextLast(ks[0], last))
    decreases |ks|
  {
    if |ks| > 1 {
      var init := ks[..|ks| - 1];
      assert init[1..] == ks[1..][..|ks[1..]| - 1];
      assert ks[1..][|ks[1..]| - 1] == ks[|ks| - 1];
      assert init[0] == ks[0];
      LastParagraphCons(init, last);
    } else {
      assert ks[..0] == [] && ks[1..] == [];
    }
  }

  /** The log splits at any point, the right part starting from the section and text reached by then. */
  lemma {:induction false} LogSplit(ks: seq<BlockKind>, i: nat, current: string, last: Option<string>)
    requires GoodKinds(ks) && i <= |ks|
    ensures Log(ks, current, last) ==
      Log(ks[..i], current, last) + Log(ks[i..], SectionAfter(ks[..i], current), LastParagraph(ks[..i], last))
    decreases i
  {
    if i == 0 {
      assert ks[..0] == [] && ks[0..] == ks;
    } else {
      var current', last' := NextSection(ks[0], current), NextLast(ks[0], last);
      var pre := ks[..i];
      SliceFacts(ks, i);
      LogSplit(ks[1..], i - 1, current', last');
      LastParagraphCons(pre, last);
      SectionAfterCons(pre, current);
      var t := Tagged(current, Added(ks[0], last));
      var a := Log(pre[1..], current', last');
      var b := Log(ks[i..], SectionAfter(pre, current), LastParagraph(pre, last));
      assert Log(ks[1..], current', last') == a + b;
      assert Log(pre, current, last) == t + a;
      AppendAssoc(t, a, b);
    }
  }

  lemma SliceFacts(ks: seq<BlockKind>, i: nat)
    requires 0 < i <= |ks|
    ensures ks[..i][0] == ks[0] && ks[1..][..i - 1] == ks[..i][1..] && ks[1..][i - 1..] == ks[i..]
  {
  }

  /** `current_section` after the blocks `ks`: the last heading's name, or `current`. */
  function SectionAfter(ks: seq<BlockKind>, current: string): (r: string)
    ensures r == current || exists i :: 0 <= i < |ks| && ks[i].HeadingPara? && r == ks[i].name
    decreases |ks|
  {
    if ks == [] then current
    else
      var k := ks[|ks| - 1];
      if k.HeadingPara? then k.name else SectionAfter(ks[..|ks| - 1], current)
  }

  lemma {:induction false} SectionAfterCons(ks: seq<BlockKind>, current: string)
    requires ks != []
    ensures SectionAfter(ks, current) == SectionAfter(ks[1..], NextSection(ks[0], current))
    decreases |ks|
  {
    if |ks| > 1 {
      var init := ks[..|ks| - 1];
      assert init[1..] == ks[1..][..|ks[1..]| - 1];
      assert ks[1..][|ks[1..]| - 1] == ks[|ks| - 1];
      assert init[0] == ks[0];
      SectionAfterCons(init, current);
    } else {
      assert ks[..0] == [] && ks[1..] == [];
    }
  }

  // ---------------------------------------------------------------- the whole parse

  /**
   * `parse_docx` against the log: the sections are exactly those some block
   * contributes to, and each holds its contributions in document order.
   */
  lemma ParseKindsContent(ks: seq<BlockKind>)
    requires GoodKinds(ks)
    ensures var r := ParseKinds(ks);
      var log := Log(ks, Uncategorized, None);
      && (forall n :: n in r.sections <==> Group(log, n) != [])
      && (forall n :: n in r.sections ==> r.sections[n] == Group(log, n))
  {
    var log := Log(ks, Uncategorized, None);
    var w := Walk(Init(), ks).doc;
    WalkContent(Init(), ks);
    forall n ensures SectionOr(w, n) == Group(log, n) {
      assert SectionOr(Start(), n) == [];
    }
    CleanupOfGrouped(w, log);
  }

  /**
   * `order` after `parse_docx` is the first-encounter order of
   * "Uncategorized" and the heading names, filtered to the surviving sections.
   */
  lemma ParseKindsOrder(ks: seq<BlockKind>)
    requires GoodKinds(ks)
    ensures var r := ParseKinds(ks);
      var names := [Uncategorized] + HeadingNames(ks);
      && r.order == Survivors(AppendUnseen([], names), r.sections.Keys)
      && InFirstEncounterOrder(r.order, names)
  {
    var names := [Uncategorized] + HeadingNames(ks);
    var r := ParseKinds(ks);
    var u := AppendUnseen([], names);
    WalkOrder(Init(), ks);
    assert u == AppendUnseen([Uncategorized], HeadingNames(ks)) by {
      AppendUnseenCons([], Uncategorized, HeadingNames(ks));
      assert [] + [Uncategorized] == [Uncategorized];
    }
    FirstEncounterSpec(names);
    SurvivorsKeepOrder(u, r.sections.Keys, names);
  }

  /** Both halves for the blocks of a document body. */
  lemma ParseDocxSpec(blocks: seq<Block>)
    ensures var r := ParseDocx(blocks);
      var ks := Kinds(blocks);
      var log := Log(ks, Uncategorized, None);
      var names := [Uncategorized] + HeadingNames(ks);
      && (forall n :: n in r.sections <==> Group(log, n) != [])
      && (forall n :: n in r.sections ==> r.sections[n] == Group(log, n))
      && r.order == Survivors(AppendUnseen([], names), r.sections.Keys)
      && InFirstEncounterOrder(r.order, names)
  {
    ParseKindsContent(Kinds(blocks));
    ParseKindsOrder(Kinds(blocks));
  }

  // ---------------------------------------------------------------- one block at a time

  /** A heading paragraph switches the section, records its text as the last text, and stores nothing. */
  lemma HeadingBlock(st: State, b: Block)
    requires Valid(st) && b.Para? && HeadingOf(Strip(b.text)).Some?
    ensures var r := Step(st, Classify(b));
      && r.current == HeadingOf(Strip(b.text)).value
      && r.lastText == Some(Strip(b.text))
      && r.current in r.doc.sections
      && forall n :: SectionOr(r.doc, n) == SectionOr(st.doc, n)
  {
    var k := Classify(b);
    StepContent(st, k);
    forall n ensures SectionOr(Step(st, k).doc, n) == SectionOr(st.doc, n) {
      assert Group([], n) == [];
      assert Tagged(st.current, Added(k, st.lastText)) == [];
    }
  }

  /**
   * A paragraph with k pictures stores k image elements in the current
   * section, one per picture and in order, all with the one caption chosen
   * from the last text and this paragraph's text; the paragraph's own text
   * is not stored.
   */
  lemma ImageBlock(st: State, b: Block)
    requires Valid(st) && b.Para? && HeadingOf(Strip(b.text)).None? && b.images != []
    ensures var r := Step(st, Classify(b));
      var caption := DetectCaption(st.lastText, Some(Strip(b.text)));
      && r.current == st.current && r.lastText == Some(Strip(b.text))
      && SectionOr(r.doc, st.current) == SectionOr(st.doc, st.current) + ImageElements(b.images, caption)
      && (forall n :: n != st.current ==> SectionOr(r.doc, n) == SectionOr(st.doc, n))
  {
    var k := Classify(b);
    assert k == ImagePara(Strip(b.text), b.images);
    StepAdds(st, k);
  }

  /** A paragraph without heading or pictures is stored as its stripped text, unless that is empty. */
  lemma TextBlock(st: State, b: Block)
    requires Valid(st) && b.Para? && HeadingOf(Strip(b.text)).None? && b.images == []
    ensures var r := Step(st, Classify(b));
      var txt := Strip(b.text);
      && r.current == st.current && r.lastText == Some(txt)
      && SectionOr(r.doc, st.current) == SectionOr(st.doc, st.current) + (if txt != "" then [Text(txt)] else [])
      && (forall n :: n != st.current ==> SectionOr(r.doc, n) == SectionOr(st.doc, n))
  {
    var k := Classify(b);
    assert k == TextPara(Strip(b.text));
    StepAdds(st, k);
  }

  /** An empty (or blank) paragraph stores nothing and resets the last text to "". */
  lemma EmptyParagraph(st: State, b: Block)
    requires Valid(st) && b.Para? && AllSpace(b.text) && b.images == []
    ensures var r := Step(st, Classify(b));
      && r.current == st.current && r.lastText == Some("")
      && forall n :: SectionOr(r.doc, n) == SectionOr(st.doc, n)
  {
    StripEmptyIff(b.text);
    TextBlock(st, b);
    var r := Step(st, Classify(b));
    forall n ensures SectionOr(r.doc, n) == SectionOr(st.doc, n) {
      assert SectionOr(st.doc, st.current) + [] == SectionOr(st.doc, st.current);
    }
  }

  /** A table stores its rows, cells stripped, and leaves both the section and the last text alone. */
  lemma TableBlockStep(st: State, b: Block)
    requires Valid(st) && b.TableBlock?
    ensures var r := Step(st, Classify(b));
      && r.current == st.current && r.lastText == st.lastText
      && SectionOr(r.doc, st.current) == SectionOr(st.doc, st.current) + [Table(StripCells(b.rows))]
      && (forall n :: n != st.current ==> SectionOr(r.doc, n) == SectionOr(st.doc, n))
  {
    var k := Classify(b);
    assert k == TableKind(b.rows);
    StepAdds(st, k);
  }

  /** Whatever a block adds goes to the section current before it; no other section changes. */
  lemma StepAdds(st: State, k: BlockKind)
    requires Valid(st) && GoodKind(k)
    ensures var r := Step(st, k); var es := Added(k, st.lastText);
      && SectionOr(r.doc, st.current) == SectionOr(st.doc, st.current) + es
      && forall n :: n != st.current ==> SectionOr(r.doc, n) == SectionOr(st.doc, n)
  {
    var r := Step(st, k);
    var es := Added(k, st.lastText);
    StepContent(st, k);
    GroupTagged(st.current, es, st.current);
    forall n | n != st.current ensures SectionOr(r.doc, n) == SectionOr(st.doc, n) {
      GroupTagged(st.current, es, n);
      assert SectionOr(r.doc, n) == SectionOr(st.doc, n) + [];
    }
  }

  // ---------------------------------------------------------------- captions across blocks

  /**
   * The pictures of the paragraph at position `i` enter the log right after
   * everything before it, in the section of the last heading before it, and
   * each is captioned from the text of the last paragraph before it (tables
   * in between do not count) and the paragraph's own text.
   */
  lemma ImageCaptions(ks: seq<BlockKind>, i: nat)
    requires GoodKinds(ks) && i < |ks| && ks[i].ImagePara?
    ensures var log := Log(ks, Uncategorized, None);
      var at := |Log(ks[..i], Uncategorized, None)|;
      var section := SectionAfter(ks[..i], Uncategorized);
      var caption := DetectCaption(LastParagraph(ks[..i], None), Some(ks[i].txt));
      && at + |ks[i].images| <= |log|
      && forall j :: 0 <= j < |ks[i].images| ==> log[at + j] == (section, ImageElement(ks[i].images[j], caption))
  {
    var before := ks[..i];
    var section := SectionAfter(before, Uncategorized);
    var last := LastParagraph(before, None);
    LogSplit(ks, i, Uncategorized, None);
    assert ks[i..][0] == ks[i];
    LogAtImage(ks[i..], section, last);
    EntriesAfter(Log(ks, Uncategorized, None), Log(before, Uncategorized, None), Log(ks[i..], section, last),
      section, ks[i].images, DetectCaption(last, Some(ks[i].txt)));
  }

  /** Entries at the front of the right part of a concatenation, seen from the whole. */
  lemma EntriesAfter(log: seq<(string, Element)>, a: seq<(string, Element)>, b: seq<(string, Element)>,
                     section: string, imgs: seq<ImageRef>, caption: Option<string>)
    requires log == a + b && |imgs| <= |b|
    requires forall j :: 0 <= j < |imgs| ==> b[j] == (section, ImageElement(imgs[j], caption))
    ensures |a| + |imgs| <= |log|
    ensures forall j :: 0 <= j < |imgs| ==> log[|a| + j] == (section, ImageElement(imgs[j], caption))
  {
    forall j | 0 <= j < |imgs| ensures log[|a| + j] == (section, ImageElement(imgs[j], caption)) {
      assert log[|a| + j] == b[j];
    }
  }

  /** The log of blocks starting with a picture paragraph starts with its captioned pictures. */
  lemma LogAtImage(ks: seq<BlockKind>, section: string, last: Option<string>)
    requires ks != [] && ks[0].ImagePara?
    ensures var log := Log(ks, section, last);
      var caption := DetectCaption(last, Some(ks[0].txt));
      && |ks[0].images| <= |log|
      && forall j :: 0 <= j < |ks[0].images| ==> log[j] == (section, ImageElement(ks[0].images[j], caption))
  {
    var caption := DetectCaption(last, Some(ks[0].txt));
    var t := Tagged(section, ImageElements(ks[0].images, caption));
    var log := Log(ks, section, last);
    assert log == t + Log(ks[1..], NextSection(ks[0], section), NextLast(ks[0], last));
    forall j | 0 <= j < |ks[0].images| ensures log[j] == t[j] {
    }
  }

  /** A caption paragraph, then a table, then an empty paragraph with one picture. */
  const CaptionKinds: seq<BlockKind> :=
    [TextPara("Figure 1: Sample output"), TableKind([["a", "b"]]), ImagePara("", [ImageRef(Some("image1.png"), "")])]

  /** The picture takes its caption from the paragraph before the table. */
  lemma CaptionAcrossTable(ks: seq<BlockKind>)
    requires ks == CaptionKinds
    ensures GoodKinds(ks)
    ensures Log(ks, Uncategorized, None)[2] ==
      (Uncategorized, Image(Some("image1.png"), Some("Figure 1: Sample output"), "", false))
  {
    CaptionExampleGood(ks);
    CaptionExampleBefore(ks);
    CaptionExampleImage(ks);
    ImageCaptions(ks, 2);
    PreviousCaptionExample(Some(""));
  }

  lemma CaptionExampleGood(ks: seq<BlockKind>)
    requires ks == CaptionKinds
    ensures GoodKinds(ks) && |ks| == 3
  {
  }

  lemma CaptionExampleImage(ks: seq<BlockKind>)
    requires ks == CaptionKinds
    ensures ks[2].ImagePara? && ks[2].txt == "" && |ks[2].images| == 1
    ensures ks[2].images[0] == ImageRef(Some("image1.png"), "")
  {
  }

  /** Before the picture: the table is skipped, nothing changes the section, and two entries are logged. */
  lemma CaptionExampleBefore(ks: seq<BlockKind>)
    requires ks == CaptionKinds
    ensures LastParagraph(ks[..2], None) == Some("Figure 1: Sample output")
    ensures SectionAfter(ks[..2], Uncategorized) == Uncategorized
    ensures |Log(ks[..2], Uncategorized, None)| == 2
  {
    var before := ks[..2];
    assert before[1].TableKind? && before[..1] == [ks[0]];
    assert [ks[0]][..0] == [];
    assert Log(before[1..], Uncategorized, Some("Figure 1: Sample output")) == [(Uncategorized, Table(StripCells([["a", "b"]])))];
  }

  // ---------------------------------------------------------------- the caption example on blocks

  /** The same three blocks as read from a document: caption paragraph, table, picture paragraph. */
  const CaptionBlocks: seq<Block> :=
    [Para("Figure 1: Sample output", []), TableBlock([["a", "b"]]), Para("", [ImageRef(Some("image1.png"), "")])]

  /** The picture in the `Log` of the example, with the caption of the paragraph before the table. */
  const CaptionPicture: Element := Image(Some("image1.png"), Some("Figure 1: Sample output"), "", false)

  /**
   * `parse_docx` of the three blocks: everything stays in "Uncategorized",
   * in document order, and the picture is captioned by the paragraph before
   * the table.
   */
  lemma ParseCaptionBlocks(blocks: seq<Block>)
    requires blocks == CaptionBlocks
    ensures ParseDocx(blocks).sections ==
      map[Uncategorized := [Text("Figure 1: Sample output"), Table([["a", "b"]]), CaptionPicture]]
    ensures ParseDocx(blocks).order == [Uncategorized]
  {
    CaptionBlockKinds(blocks);
    ParseCaptionKinds(CaptionKinds);
  }

  lemma ParseCaptionKinds(ks: seq<BlockKind>)
    requires ks == CaptionKinds
    ensures ParseKinds(ks).sections ==
      map[Uncategorized := [Text("Figure 1: Sample output"), Table([["a", "b"]]), CaptionPicture]]
    ensures ParseKinds(ks).order == [Uncategorized]
  {
    CaptionExampleGood(ks);
    CaptionLog(ks);
    CaptionHeadingNames(ks);
    ParseOneSection(ks, Text("Figure 1: Sample output"), Table([["a", "b"]]), CaptionPicture);
  }

  /** Blocks without headings whose log is three entries for "Uncategorized" parse to that one section. */
  lemma ParseOneSection(ks: seq<BlockKind>, a: Element, b: Element, c: Element)
    requires GoodKinds(ks) && HeadingNames(ks) == []
    requires Log(ks, Uncategorized, None) == [(Uncategorized, a), (Uncategorized, b), (Uncategorized, c)]
    ensures ParseKinds(ks).sections == map[Uncategorized := [a, b, c]]
    ensures ParseKinds(ks).order == [Uncategorized]
  {
    OneSectionContent(ks, a, b, c);
    assert ParseKinds(ks).sections.Keys == {Uncategorized};
    OneSectionOrder(ks);
  }

  lemma OneSectionContent(ks: seq<BlockKind>, a: Element, b: Element, c: Element)
    requires GoodKinds(ks)
    requires Log(ks, Uncategorized, None) == [(Uncategorized, a), (Uncategorized, b), (Uncategorized, c)]
    ensures ParseKinds(ks).sections == map[Uncategorized := [a, b, c]]
  {
    var log := Log(ks, Uncategorized, None);
    ParseKindsContent(ks);
    GroupThree(Uncategorized, a, b, c);
    SectionsOfOneGroup(ParseKinds(ks).sections, log, Uncategorized, [a, b, c]);
  }

  /** Sections that are the groups of a log sending everything to one name are that one section. */
  lemma SectionsOfOneGroup(m: map<string, seq<Element>>, log: seq<(string, Element)>, u: string, es: seq<Element>)
    requires es != [] && forall n :: Group(log, n) == if n == u then es else []
    requires forall n :: n in m <==> Group(log, n) != []
    requires forall n :: n in m ==> m[n] == Group(log, n)
    ensures m == map[u := es]
  {
    assert u in m && m[u] == es;
    assert m.Keys == {u};
  }

  lemma OneSectionOrder(ks: seq<BlockKind>)
    requires GoodKinds(ks) && HeadingNames(ks) == []
    requires ParseKinds(ks).sections.Keys == {Uncategorized}
    ensures ParseKinds(ks).order == [Uncategorized]
  {
    ParseKindsOrder(ks);
    assert [Uncategorized] + HeadingNames(ks) == [Uncategorized];
    assert AppendUnseen([], [Uncategorized]) == [Uncategorized];
    assert Survivors([Uncategorized], {Uncategorized}) == [Uncategorized];
  }

  lemma CaptionHeadingNames(ks: seq<BlockKind>)
    requires ks == CaptionKinds
    ensures HeadingNames(ks) == []
  {
    assert HeadingNames(ks[2..]) == [];
  }

  /** Three entries for one section group to that section only. */
  lemma GroupThree(u: string, a: Element, b: Element, c: Element)
    ensures forall n :: Group([(u, a), (u, b), (u, c)], n) == if n == u then [a, b, c] else []
  {
    forall n ensures Group([(u, a), (u, b), (u, c)], n) == if n == u then [a, b, c] else [] {
      GroupSnoc([], u, a, n);
      GroupSnoc([(u, a)], u, b, n);
      GroupSnoc([(u, a), (u, b)], u, c, n);
      assert [] + [(u, a)] == [(u, a)];
      assert [(u, a)] + [(u, b)] == [(u, a), (u, b)];
      assert [(u, a), (u, b)] + [(u, c)] == [(u, a), (u, b), (u, c)];
    }
  }

  /** The log of the example kinds, entry by entry. */
  lemma CaptionLog(ks: seq<BlockKind>)
    requires ks == CaptionKinds
    ensures Log(ks, Uncategorized, None) ==
      [(Uncategorized, Text("Figure 1: Sample output")), (Uncategorized, Table([["a", "b"]])), (Uncategorized, CaptionPicture)]
  {
    var t := "Figure 1: Sample output";
    var img := ImageRef(Some("image1.png"), "");
    assert ks == [TextPara(t), TableKind([["a", "b"]]), ImagePara("", [img])];
    PreviousCaptionExample(Some(""));
    CaptionTableCells();
    LogTextTablePicture(t, [["a", "b"]], "", img, Uncategorized, None);
  }

  /** A text paragraph, a table and a one-picture paragraph, in one section. */
  lemma LogTextTablePicture(t: string, rows: seq<seq<string>>, txt: string, img: ImageRef, u: string, last: Option<string>)
    requires t != ""
    ensures Log([TextPara(t), TableKind(rows), ImagePara(txt, [img])], u, last) ==
      [(u, Text(t)), (u, Table(StripCells(rows))), (u, ImageElement(img, CaptionFor(Some(t), txt)))]
  {
    var rest := [TableKind(rows), ImagePara(txt, [img])];
    LogTablePicture(rows, txt, img, u, Some(t));
    LogText(t, rest, u, last);
    assert [TextPara(t)] + rest == [TextPara(t), TableKind(rows), ImagePara(txt, [img])];
  }

  /** A table and then a one-picture paragraph: the picture keeps the last text from before the table. */
  lemma LogTablePicture(rows: seq<seq<string>>, txt: string, img: ImageRef, u: string, last: Option<string>)
    ensures Log([TableKind(rows), ImagePara(txt, [img])], u, last) ==
      [(u, Table(StripCells(rows))), (u, ImageElement(img, CaptionFor(last, txt)))]
  {
    var pic := ImagePara(txt, [img]);
    LogPicture(txt, img, u, last);
    LogTable(rows, [pic], u, last);
    assert [TableKind(rows)] + [pic] == [TableKind(rows), pic];
  }

  /** A non-empty text paragraph logs its text and becomes the last text. */
  lemma LogText(t: string, ks: seq<BlockKind>, u: string, last: Option<string>)
    requires t != ""
    ensures Log([TextPara(t)] + ks, u, last) == [(u, Text(t))] + Log(ks, u, Some(t))
  {
    var all := [TextPara(t)] + ks;
    assert all[0] == TextPara(t) && all[1..] == ks;
    assert Tagged(u, [Text(t)]) == [(u, Text(t))];
  }

  /** A table logs its stripped rows and leaves the last text alone. */
  lemma LogTable(rows: seq<seq<string>>, ks: seq<BlockKind>, u: string, last: Option<string>)
    ensures Log([TableKind(rows)] + ks, u, last) == [(u, Table(StripCells(rows)))] + Log(ks, u, last)
  {
    var all := [TableKind(rows)] + ks;
    assert all[0] == TableKind(rows) && all[1..] == ks;
    assert Tagged(u, [Table(StripCells(rows))]) == [(u, Table(StripCells(rows)))];
  }

  /** A paragraph with one picture, on its own, logs that picture with its caption. */
  lemma LogPicture(txt: string, img: ImageRef, u: string, last: Option<string>)
    ensures Log([ImagePara(txt, [img])], u, last) == [(u, ImageElement(img, CaptionFor(last, txt)))]
  {
    var es := ImageElements([img], CaptionFor(last, txt));
    assert es == [ImageElement(img, CaptionFor(last, txt))];
    assert Tagged(u, es) == [(u, ImageElement(img, CaptionFor(last, txt)))];
    assert [ImagePara(txt, [img])][1..] == [];
  }

  lemma CaptionTableCells()
    ensures StripCells([["a", "b"]]) == [["a", "b"]]
  {
    var r := StripCells([["a", "b"]]);
    assert Strip("a") == "a" && Strip("b") == "b";
    assert r[0] == ["a", "b"];
  }

  /** The blocks classify to the example kinds. */
  lemma CaptionBlockKinds(blocks: seq<Block>)
    requires blocks == CaptionBlocks
    ensures Kinds(blocks) == CaptionKinds
  {
    forall i | 0 <= i < |blocks| ensures Classify(blocks[i]) == CaptionKinds[i] {
      ClassifyCaptionBlock(blocks[i], i);
    }
    KindsPointwise(blocks, CaptionKinds);
  }

  /** `Kinds` is determined block by block. */
  lemma KindsPointwise(blocks: seq<Block>, ks: seq<BlockKind>)
    requires |ks| == |blocks|
    requires forall i :: 0 <= i < |blocks| ==> Classify(blocks[i]) == ks[i]
    ensures Kinds(blocks) == ks
  {
  }

  lemma ClassifyCaptionBlock(b: Block, i: nat)
    requires i < 3 && b == CaptionBlocks[i]
    ensures Classify(b) == CaptionKinds[i]
  {
    var k := CaptionKinds[i];
    if i == 0 {
      assert b == Para("Figure 1: Sample output", []) && k == TextPara("Figure 1: Sample output");
      CaptionParagraph(b);
    } else if i == 1 {
      assert b == TableBlock([["a", "b"]]) && k == TableKind([["a", "b"]]);
    } else {
      assert b == Para("", [ImageRef(Some("image1.png"), "")]) && k == ImagePara("", [ImageRef(Some("image1.png"), "")]);
      PictureParagraph(b);
    }
  }

  lemma PictureParagraph(b: Block)
    requires b == Para("", [ImageRef(Some("image1.png"), "")])
    ensures Classify(b) == ImagePara("", b.images)
  {
    assert Strip(b.text) == "";
  }

  /** The caption paragraph is plain text: it is no heading. */
  lemma CaptionParagraph(b: Block)
    requires b == Para("Figure 1: Sample output", [])
    ensures Classify(b) == TextPara("Figure 1: Sample output")
  {
    var s := b.text;
    CaptionTextStripped(s);
    CaptionTextNoHeading(s);
  }

  lemma CaptionTextStripped(s: string)
    requires s == "Figure 1: Sample output"
    ensures Strip(s) == s
  {
    assert s[0] == 'F' && s[|s| - 1] == 't';
    StrippedFixpoint(s);
  }

  /** Its candidate starts with the word "figure", which starts no heading phrase. */
  lemma CaptionTextNoHeading(s: string)
    requires s == "Figure 1: Sample output"
    ensures HeadingOf(s) == None
  {
    var r := CaptionCandidate(s);
    WordHeadsNoHeading(s, "figure", r);
  }

  /** A text whose candidate is "figure" and more words is no heading. */
  lemma WordHeadsNoHeading(s: string, w: string, r: string)
    requires w == "figure" && s != "" && Candidate(s) == w + r && r != "" && IsSpace(r[0])
    ensures HeadingOf(s) == None
  {
    FirstWordFigure(w, r);
    FigureStartsNoPhrase(SplitWords(w + r));
    NoPhraseNoHeading(s, SplitWords(w + r));
  }

  lemma FirstWordFigure(w: string, r: string)
    requires w == "figure" && r != "" && IsSpace(r[0])
    ensures SplitWords(w + r) != [] && SplitWords(w + r)[0] == "figure"
  {
    assert IsWord(w);
    SplitWordsFirst(w, r);
  }

  /** A text whose candidate's words are no heading phrase is no heading. */
  lemma NoPhraseNoHeading(s: string, ws: seq<string>)
    requires SplitWords(Candidate(s)) == ws && ws !in HeadingPhrases
    ensures HeadingOf(s) == None
  {
  }

  lemma FigureStartsNoPhrase(ws: seq<string>)
    requires ws != [] && ws[0] == "figure"
    ensures ws !in HeadingPhrases
  {
  }

  /** The candidate of the caption text is "figure" followed by whitespace and the rest, lower-cased. */
  lemma CaptionCandidate(s: string) returns (r: string)
    requires s == "Figure 1: Sample output"
    ensures r != "" && IsSpace(r[0]) && Candidate(s) == "figure" + r
  {
    r := Lower(s[6..]);
    CaptionLowerSplit(s);
    assert r[0] == LowerChar(s[6]) && r[|r| - 1] == LowerChar(s[|s| - 1]);
    CandidateAfterWord(s, "figure", r);
  }

  /** Lower-cased text that starts with a letter word and ends in a non-space is its own candidate. */
  lemma CandidateAfterWord(s: string, w: string, r: string)
    requires Lower(s) == w + r && w != "" && !IsSpace(w[0]) && !IsDigit(w[0])
    requires r != "" && !IsSpace(r[|r| - 1])
    ensures Candidate(s) == w + r
  {
    var l := Lower(s);
    assert l[0] == w[0] && l[|l| - 1] == r[|r| - 1];
    StrippedFixpoint(l);
    assert NumberingEnd(l) == None;
  }

  lemma CaptionLowerSplit(s: string)
    requires s == "Figure 1: Sample output"
    ensures Lower(s) == "figure" + Lower(s[6..]) && s[6] == ' ' && s[|s| - 1] == 't'
  {
    LowerAppend(s[..6], s[6..]);
    assert s[..6] + s[6..] == s;
    assert s[..6] == "Figure";
    FigureWord();
  }
}
