/**
 * `DocumentHandler.parse_text`: split plain text into lines, collect runs of
 * body lines into paragraphs, switch section at every heading line, and
 * finish with `_cleanup`.
 *
 * The loop is a left fold of `Step` over the lines with the state
 * (model, current section, paragraph buffer). Its result is related to
 * `Runs`, an independent description by maximal runs of body lines.
 */
module TextParser {
  import opened Options
  import opened PyStr
  import opened ContentModel
  import opened Headings

  /** What the loop makes of one line. */
  datatype LineKind = Blank | HeadingLine(name: string) | BodyLine(text: string)

  /**
   * A line whose `strip()` is empty is blank; a stripped line for which
   * `_detect_heading` returns a non-empty name is a heading; anything else
   * is body text, kept stripped.
   */
  function Kind(line: string): (k: LineKind)
    ensures k.Blank? <==> Strip(line) == ""
    ensures k.HeadingLine? <==> Strip(line) != "" && SplitWords(Candidate(Strip(line))) in HeadingPhrases
    ensures k.HeadingLine? ==>
      Lower(k.name) == Candidate(Strip(line)) && k.name == Title(Candidate(Strip(line)))
    ensures k.HeadingLine? ==> k.name != "" && DetectHeading(Strip(line)) == Some(k.name)
    ensures k.BodyLine? ==> k.text == Strip(line) && k.text != "" && IsStripped(k.text)
    ensures k.BodyLine? ==> DetectHeading(Strip(line)) == None
  {
    var s := Strip(line);
    StripIsStripped(line);
    DetectHeadingSpec(s);
    if s == "" then Blank
    else match DetectHeading(s)
      case Some(h) => if h != "" then HeadingLine(h) else BodyLine(s)
      case None => BodyLine(s)
  }

  /** The kinds `Kind` hands out: body text is non-empty and stripped, heading names are non-empty. */
  predicate GoodKind(k: LineKind) {
    (k.HeadingLine? ==> k.name != "") && (k.BodyLine? ==> k.text != "" && IsStripped(k.text))
  }

  predicate GoodKinds(ks: seq<LineKind>) {
    forall i :: 0 <= i < |ks| ==> GoodKind(ks[i])
  }

  /** The kind of every line, in order. */
  function Kinds(lines: seq<string>): (ks: seq<LineKind>)
    ensures |ks| == |lines| && GoodKinds(ks)
    ensures forall i :: 0 <= i < |lines| ==> ks[i] == Kind(lines[i])
  {
    seq(|lines|, i requires 0 <= i < |lines| => Kind(lines[i]))
  }

  /** The loop state: the model so far, `current_section` and `buffer`. */
  datatype State = State(doc: Doc, current: string, buffer: seq<string>)

  /** The buffer only ever holds non-empty stripped lines. */
  predicate BufferLines(buffer: seq<string>) {
    forall i :: 0 <= i < |buffer| ==> buffer[i] != "" && IsStripped(buffer[i])
  }

  predicate Valid(st: State) {
    WellFormed(st.doc) && st.current in st.doc.sections && BufferLines(st.buffer)
  }

  /** The state before the first line: one empty "Uncategorized" section, which is current. */
  function Init(): (st: State)
    ensures Valid(st)
  {
    State(Start(), Uncategorized, [])
  }

  /** The paragraph a non-empty buffer turns into: its lines joined by single spaces. */
  function Emit(current: string, buffer: seq<string>): seq<(string, Element)> {
    if buffer == [] then [] else [(current, Text(Join(" ", buffer)))]
  }

  /** Joining non-empty stripped lines with single spaces leaves nothing for `strip()` to remove. */
  lemma {:induction false} JoinOfStripped(buffer: seq<string>)
    requires buffer != [] && BufferLines(buffer)
    ensures Join(" ", buffer) != "" && IsStripped(Join(" ", buffer))
    ensures Join(" ", buffer)[0] == buffer[0][0]
    decreases |buffer|
  {
    if |buffer| >= 2 {
      var rest := buffer[1..];
      assert BufferLines(rest) by {
        forall i | 0 <= i < |rest| ensures rest[i] != "" && IsStripped(rest[i]) {
          assert rest[i] == buffer[i + 1];
        }
      }
      JoinOfStripped(rest);
      JoinCons(" ", buffer);
      var j := Join(" ", buffer);
      var r := Join(" ", rest);
      assert j == buffer[0] + (" " + r);
      assert j[0] == buffer[0][0];
      assert j[|j| - 1] == r[|r| - 1];
    }
  }

  predicate GroupOfEmitHolds(current: string, buffer: seq<string>, n: string) {
    Group(Emit(current, buffer), n) == if buffer != [] && n == current then [Text(Join(" ", buffer))] else []
  }

  lemma GroupOfEmit(current: string, buffer: seq<string>, n: string)
    ensures GroupOfEmitHolds(current, buffer, n)
  {
    if buffer != [] {
      GroupSnoc([], current, Text(Join(" ", buffer)), n);
      assert [] + [(current, Text(Join(" ", buffer)))] == Emit(current, buffer);
    }
  }

  /**
   * The inner `flush()`: a non-empty buffer becomes one text element of the
   * current section (its lines joined by single spaces and stripped), and
   * the buffer is emptied.
   */
  function Flush(st: State): (r: State)
    requires Valid(st)
    ensures Valid(r) && r.buffer == [] && r.current == st.current
    ensures r.doc.order == st.doc.order && r.doc.sections.Keys == st.doc.sections.Keys
    ensures Extends(r.doc, st.doc, Emit(st.current, st.buffer))
  {
    if st.buffer == [] then st
    else
      var para := Strip(Join(" ", st.buffer));
      JoinOfStripped(st.buffer);
      StrippedFixpoint(Join(" ", st.buffer));
      var r := State(Append(st.doc, st.current, Text(para)), st.current, []);
      assert Extends(r.doc, st.doc, Emit(st.current, st.buffer)) by {
        forall n ensures SectionOr(r.doc, n) == SectionOr(st.doc, n) + Group(Emit(st.current, st.buffer), n) {
          GroupOfEmit(st.current, st.buffer, n);
        }
      }
      // `if para:` always holds here: the buffer's lines are non-empty.
      assert para != "";
      r
  }

  /** One iteration of the `for line in text.splitlines()` loop, on the line's kind. */
  function Step(st: State, k: LineKind): (r: State)
    requires Valid(st) && GoodKind(k)
    ensures Valid(r)
  {
    match k
    case Blank => Flush(st)
    case HeadingLine(h) =>
      var f := Flush(st);
      State(Enter(f.doc, h), h, [])
    case BodyLine(s) => st.(buffer := st.buffer + [s])
  }

  /** The whole loop. */
  function Walk(st: State, ks: seq<LineKind>): (r: State)
    requires Valid(st) && GoodKinds(ks)
    ensures Valid(r)
    decreases |ks|
  {
    if ks == [] then st else Walk(Step(st, ks[0]), ks[1..])
  }

  /** `parse_text` over the lines: the loop, the final `flush()` and `_cleanup()`. */
  function ParseLines(lines: seq<string>): (r: Doc)
    ensures Finalized(r)
  {
    ParseKinds(Kinds(lines))
  }

  /** The same on the kinds of the lines. */
  function ParseKinds(ks: seq<LineKind>): (r: Doc)
    requires GoodKinds(ks)
    ensures Finalized(r)
  {
    Cleanup(Flush(Walk(Init(), ks)).doc)
  }

  /** `parse_text(text)` */
  function ParseText(text: string): (r: Doc)
    ensures Finalized(r)
  {
    ParseLines(SplitLines(text))
  }

  // ---------------------------------------------------------------- the reference description

  /** The names of the heading ks, in order, repeats included. */
  function HeadingNames(ks: seq<LineKind>): seq<string>
    decreases |ks|
  {
    if ks == [] then []
    else (if ks[0].HeadingLine? then [ks[0].name] else []) + HeadingNames(ks[1..])
  }

  /** Length of the run of body ks at the start of `ks`. */
  function BodyRun(ks: seq<LineKind>): (k: nat)
    ensures k <= |ks|
    ensures forall i :: 0 <= i < k ==> ks[i].BodyLine?
    ensures k == |ks| || !ks[k].BodyLine?
    decreases |ks|
  {
    if ks == [] || !ks[0].BodyLine? then 0 else 1 + BodyRun(ks[1..])
  }

  /** The stripped texts of the body ks among `ks`. */
  function Bodies(ks: seq<LineKind>): seq<string>
    decreases |ks|
  {
    if ks == [] then []
    else (if ks[0].BodyLine? then [ks[0].text] else []) + Bodies(ks[1..])
  }

  /** The section that is current after a line that is not body text. */
  function NextSection(k: LineKind, current: string): string {
    if k.HeadingLine? then k.name else current
  }

  /**
   * The paragraphs of `ks` as a log of (section, element): each maximal
   * run of body lines is one text element, its stripped lines joined by
   * single spaces, sent to the section of the last heading before it
   * (`current` when there is none).
   */
  function Runs(ks: seq<LineKind>, current: string): seq<(string, Element)>
    decreases |ks|
  {
    if ks == [] then []
    else
      var k := BodyRun(ks);
      if k > 0 then [(current, Text(Join(" ", Bodies(ks[..k]))))] + Runs(ks[k..], current)
      else Runs(ks[1..], NextSection(ks[0], current))
  }

  /**
   * What is still to be emitted from a state with `buffer` pending and
   * `ks` ahead: the buffer extended by the leading body run, then the
   * runs after the line that ends it.
   */
  function Pending(buffer: seq<string>, current: string, ks: seq<LineKind>): seq<(string, Element)> {
    var k := BodyRun(ks);
    Emit(current, buffer + Bodies(ks[..k])) +
      (if k == |ks| then [] else Runs(ks[k + 1..], NextSection(ks[k], current)))
  }

  lemma BodiesOfRun(ks: seq<LineKind>, k: nat)
    requires 0 < k <= |ks| && forall i :: 0 <= i < k ==> ks[i].BodyLine?
    ensures Bodies(ks[..k]) != []
    ensures Bodies(ks[..k]) == [ks[0].text] + Bodies(ks[1..][..k - 1])
  {
    assert ks[..k][1..] == ks[1..][..k - 1];
  }

  /** A line that is not body text contributes nothing itself and may switch the section. */
  lemma RunsAtBreak(ks: seq<LineKind>, current: string)
    requires ks != [] && !ks[0].BodyLine?
    ensures Runs(ks, current) == Runs(ks[1..], NextSection(ks[0], current))
  {
    assert BodyRun(ks) == 0;
  }

  /** A leading run of body lines is one paragraph, followed by the runs after it. */
  lemma RunsAtRun(ks: seq<LineKind>, current: string)
    requires ks != [] && BodyRun(ks) > 0
    ensures Runs(ks, current) ==
      [(current, Text(Join(" ", Bodies(ks[..BodyRun(ks)]))))] + Runs(ks[BodyRun(ks)..], current)
  {
  }

  /** With nothing buffered, what is pending is exactly the runs. */
  lemma RunsArePending(ks: seq<LineKind>, current: string)
    ensures Runs(ks, current) == Pending([], current, ks)
  {
    if ks == [] {
      assert Bodies(ks[..0]) == [];
    } else {
      var k := BodyRun(ks);
      if k > 0 {
        BodiesOfRun(ks, k);
        RunsAtRun(ks, current);
        assert [] + Bodies(ks[..k]) == Bodies(ks[..k]);
        if k < |ks| {
          var rest := ks[k..];
          RunsAtBreak(rest, current);
          assert rest[1..] == ks[k + 1..];
        } else {
          assert ks[k..] == [];
        }
      } else {
        RunsAtBreak(ks, current);
        assert Bodies(ks[..0]) == [];
      }
    }
  }

  /** A body line moves from the input into the buffer without changing what is pending. */
  lemma PendingBody(buffer: seq<string>, current: string, ks: seq<LineKind>)
    requires ks != [] && ks[0].BodyLine?
    ensures Pending(buffer, current, ks) == Pending(buffer + [ks[0].text], current, ks[1..])
  {
    var k := BodyRun(ks);
    assert k == 1 + BodyRun(ks[1..]);
    BodiesOfRun(ks, k);
    assert buffer + Bodies(ks[..k]) == (buffer + [ks[0].text]) + Bodies(ks[1..][..k - 1]);
    if k < |ks| {
      assert ks[1..][k - 1] == ks[k];
      assert ks[1..][k..] == ks[k + 1..];
    }
  }

  /** A blank or heading line ends the buffered paragraph. */
  lemma PendingBreak(buffer: seq<string>, current: string, ks: seq<LineKind>)
    requires ks != [] && !ks[0].BodyLine?
    ensures Pending(buffer, current, ks) == Emit(current, buffer) + Runs(ks[1..], NextSection(ks[0], current))
  {
    assert BodyRun(ks) == 0;
    assert Bodies(ks[..0]) == [];
    assert buffer + [] == buffer;
  }

  /**
   * The loop followed by `flush()` adds to every section exactly its share
   * of what is pending.
   */
  lemma {:induction false} WalkContent(st: State, ks: seq<LineKind>)
    requires Valid(st) && GoodKinds(ks)
    ensures Extends(Flush(Walk(st, ks)).doc, st.doc, Pending(st.buffer, st.current, ks))
    decreases |ks|
  {
    if ks == [] {
      assert Bodies(ks[..0]) == [];
      assert st.buffer + [] == st.buffer;
    } else {
      var next := Step(st, ks[0]);
      WalkContent(next, ks[1..]);
      if ks[0].BodyLine? {
        PendingBody(st.buffer, st.current, ks);
      } else {
        PendingBreak(st.buffer, st.current, ks);
        RunsArePending(ks[1..], next.current);
        assert next.current == NextSection(ks[0], st.current);
        assert Extends(next.doc, st.doc, Emit(st.current, st.buffer));
        ExtendsTrans(Flush(Walk(st, ks)).doc, next.doc, st.doc,
          Runs(ks[1..], next.current), Emit(st.current, st.buffer));
      }
    }
  }

  /** The loop extends `order` by the heading names not seen before, in first-encounter order. */
  lemma {:induction false} WalkOrder(st: State, ks: seq<LineKind>)
    requires Valid(st) && GoodKinds(ks)
    ensures Walk(st, ks).doc.order == AppendUnseen(st.doc.order, HeadingNames(ks))
    decreases |ks|
  {
    if ks != [] {
      var next := Step(st, ks[0]);
      WalkOrder(next, ks[1..]);
      match ks[0] {
        case HeadingLine(h) =>
          assert HeadingNames(ks) == [h] + HeadingNames(ks[1..]);
          assert h in st.doc.sections <==> h in st.doc.order;
        case Blank =>
          assert HeadingNames(ks) == HeadingNames(ks[1..]);
        case BodyLine(s) =>
          assert HeadingNames(ks) == HeadingNames(ks[1..]);
      }
    }
  }

  /** The model after the loop and the final `flush()`, before `_cleanup()`. */
  lemma FlushedContent(ks: seq<LineKind>)
    requires GoodKinds(ks)
    ensures var f := Flush(Walk(Init(), ks)).doc;
      forall n :: SectionOr(f, n) == Group(Runs(ks, Uncategorized), n)
  {
    WalkContent(Init(), ks);
    RunsArePending(ks, Uncategorized);
    ExtendsStart(Flush(Walk(Init(), ks)).doc, Runs(ks, Uncategorized));
  }

  /**
   * Parsing against the run description of the kinds: the sections are
   * exactly those some paragraph run is sent to, and each holds its runs in
   * input order.
   */
  lemma ParseKindsContent(ks: seq<LineKind>)
    requires GoodKinds(ks)
    ensures var r := ParseKinds(ks);
      var log := Runs(ks, Uncategorized);
      && (forall n :: n in r.sections <==> Group(log, n) != [])
      && (forall n :: n in r.sections ==> r.sections[n] == Group(log, n))
  {
    FlushedContent(ks);
    CleanupOfGrouped(Flush(Walk(Init(), ks)).doc, Runs(ks, Uncategorized));
  }

  /**
   * `order` after parsing is the first-encounter order of "Uncategorized"
   * and the heading names, filtered to the surviving sections.
   */
  lemma ParseKindsOrder(ks: seq<LineKind>)
    requires GoodKinds(ks)
    ensures var r := ParseKinds(ks);
      var names := [Uncategorized] + HeadingNames(ks);
      && r.order == Survivors(AppendUnseen([], names), r.sections.Keys)
      && InFirstEncounterOrder(r.order, names)
  {
    var names := [Uncategorized] + HeadingNames(ks);
    var w := Walk(Init(), ks);
    var f := Flush(w).doc;
    var r := Cleanup(f);
    var u := AppendUnseen([], names);
    WalkOrder(Init(), ks);
    assert f.order == AppendUnseen([Uncategorized], HeadingNames(ks));
    assert u == AppendUnseen([Uncategorized], HeadingNames(ks)) by {
      assert names[0] == Uncategorized && names[1..] == HeadingNames(ks);
      assert names[0] !in [];
      assert [] + [names[0]] == [Uncategorized];
    }
    FirstEncounterSpec(names);
    SurvivorsKeepOrder(u, r.sections.Keys, names);
  }

  /**
   * `parse_text` over lines: the sections and their content are given by the
   * paragraph runs of the lines' kinds, and `order` by first encounter of
   * "Uncategorized" and the heading names among the surviving sections.
   */
  lemma ParseLinesSpec(lines: seq<string>)
    ensures var r := ParseLines(lines);
      var ks := Kinds(lines);
      var log := Runs(ks, Uncategorized);
      var names := [Uncategorized] + HeadingNames(ks);
      && (forall n :: n in r.sections <==> Group(log, n) != [])
      && (forall n :: n in r.sections ==> r.sections[n] == Group(log, n))
      && r.order == Survivors(AppendUnseen([], names), r.sections.Keys)
      && InFirstEncounterOrder(r.order, names)
  {
    ParseKindsContent(Kinds(lines));
    ParseKindsOrder(Kinds(lines));
  }

  /** Every element `parse_text` stores is a paragraph of body lines, so heading lines never appear as content. */
  lemma {:induction false} RunsAreParagraphs(ks: seq<LineKind>, current: string)
    requires GoodKinds(ks)
    ensures forall i :: 0 <= i < |Runs(ks, current)| ==>
      Runs(ks, current)[i].1.Text? && Runs(ks, current)[i].1.content != ""
    decreases |ks|
  {
    if ks != [] {
      var k := BodyRun(ks);
      if k > 0 {
        RunsAreParagraphs(ks[k..], current);
        BodiesOfRun(ks, k);
        var b := Bodies(ks[..k]);
        assert BufferLines(b) by { BodiesAreStripped(ks[..k]); }
        JoinOfStripped(b);
      } else {
        RunsAtBreak(ks, current);
        RunsAreParagraphs(ks[1..], NextSection(ks[0], current));
      }
    }
  }

  lemma {:induction false} BodiesAreStripped(ks: seq<LineKind>)
    requires GoodKinds(ks)
    ensures BufferLines(Bodies(ks))
    decreases |ks|
  {
    if ks != [] {
      BodiesAreStripped(ks[1..]);
      var head := if ks[0].BodyLine? then [ks[0].text] else [];
      var b := Bodies(ks);
      assert b == head + Bodies(ks[1..]);
      forall i | 0 <= i < |b| ensures b[i] != "" && IsStripped(b[i]) {
        if i >= |head| {
          assert b[i] == Bodies(ks[1..])[i - |head|];
        }
      }
    }
  }

  /** Lines with no body text yield no paragraphs, whatever headings they hold. */
  lemma {:induction false} RunsWithoutBody(ks: seq<LineKind>, current: string)
    requires forall i :: 0 <= i < |ks| ==> !ks[i].BodyLine?
    ensures Runs(ks, current) == []
    decreases |ks|
  {
    if ks != [] {
      RunsAtBreak(ks, current);
      RunsWithoutBody(ks[1..], NextSection(ks[0], current));
    }
  }

  /**
   * Text without body lines (empty, blank or only headings) parses to a
   * model with no sections at all: even "Uncategorized" is cleaned away.
   */
  lemma NoBodyIsEmpty(ks: seq<LineKind>)
    requires GoodKinds(ks)
    requires forall i :: 0 <= i < |ks| ==> !ks[i].BodyLine?
    ensures ParseKinds(ks) == Doc(map[], [])
  {
    var r := ParseKinds(ks);
    ParseKindsContent(ks);
    RunsWithoutBody(ks, Uncategorized);
    assert Group([], Uncategorized) == [];
    assert r.sections == map[];
    NoSectionsNoOrder(r);
  }

  /** Empty or whitespace-only text parses to an empty model. */
  lemma BlankTextIsEmpty(text: string)
    requires AllSpace(text)
    ensures ParseText(text) == Doc(map[], [])
  {
    var lines := SplitLines(text);
    var ks := Kinds(lines);
    forall i | 0 <= i < |ks| ensures !ks[i].BodyLine? {
      assert AllSpace(lines[i]) by {
        forall j | 0 <= j < |lines[i]| ensures IsSpace(lines[i][j]) {
          assert lines[i][j] in text;
        }
      }
      StripEmptyIff(lines[i]);
    }
    NoBodyIsEmpty(ks);
  }

  /**
   * A heading already seen sends the following text back to its existing
   * section: the order is unchanged and nothing is added to the map.
   */
  lemma RepeatedHeading(st: State, h: string)
    requires Valid(st) && h != "" && h in st.doc.sections
    ensures var r := Step(st, HeadingLine(h));
      && r.current == h && r.buffer == []
      && r.doc.order == st.doc.order && r.doc.sections.Keys == st.doc.sections.Keys
  {
  }

  // ---------------------------------------------------------------- an example

  /**
   * The kinds of "Abstract", "One", "two.", "", "1. Introduction", "Three.":
   * two headings, a paragraph of two lines, a blank line, a one-line paragraph.
   */
  const ExampleKinds: seq<LineKind> :=
    [HeadingLine("Abstract"), BodyLine("One"), BodyLine("two."), Blank, HeadingLine("Introduction"), BodyLine("Three.")]

  lemma ExampleGood(ks: seq<LineKind>)
    requires ks == ExampleKinds
    ensures GoodKinds(ks)
  {
    forall i | 0 <= i < |ks| ensures GoodKind(ks[i]) {
      if ks[i].BodyLine? {
        var t := ks[i].text;
        assert t == "One" || t == "two." || t == "Three.";
        assert t != "" && !IsSpace(t[0]) && !IsSpace(t[|t| - 1]);
      }
    }
  }

  const ExampleLog: seq<(string, Element)> := [("Abstract", Text("One two.")), ("Introduction", Text("Three."))]

  lemma ExampleTail()
    ensures Runs(ExampleKinds[3..], "Abstract") == [("Introduction", Text("Three."))]
  {
    var ks := ExampleKinds[3..];
    RunsAtBreak(ks, "Abstract");
    var h := ks[1..];
    RunsAtBreak(h, "Abstract");
    var b := h[1..];
    assert b == [BodyLine("Three.")];
    assert BodyRun(b) == 1;
    RunsAtRun(b, "Introduction");
    assert b[..1] == b && b[1..] == [];
    assert Bodies(b) == ["Three."];
  }

  lemma ExampleRuns()
    ensures Runs(ExampleKinds, Uncategorized) == ExampleLog
  {
    var ks := ExampleKinds;
    RunsAtBreak(ks, Uncategorized);
    var p := ks[1..];
    assert BodyRun(p[2..]) == 0;
    assert BodyRun(p) == 2;
    RunsAtRun(p, "Abstract");
    assert p[..2] == [BodyLine("One"), BodyLine("two.")];
    assert Bodies(p[..2]) == ["One", "two."];
    assert Join(" ", ["One", "two."]) == "One two.";
    assert p[2..] == ExampleKinds[3..];
    ExampleTail();
  }

  lemma ExampleGroups(n: string)
    ensures Group(ExampleLog, n) ==
      if n == "Abstract" then [Text("One two.")] else if n == "Introduction" then [Text("Three.")] else []
  {
    assert ExampleLog == [] + [ExampleLog[0]] + [ExampleLog[1]];
    GroupSnoc([], "Abstract", Text("One two."), n);
    GroupSnoc([] + [ExampleLog[0]], "Introduction", Text("Three."), n);
  }

  /**
   * Parsing the example gives the two named sections with their paragraphs;
   * "Uncategorized" received nothing and is gone.
   */
  lemma ParseExample(ks: seq<LineKind>)
    requires ks == ExampleKinds
    ensures GoodKinds(ks) && ParseKinds(ks).sections ==
      map["Abstract" := [Text("One two.")], "Introduction" := [Text("Three.")]]
    ensures ParseKinds(ks).order == ["Abstract", "Introduction"]
  {
    ExampleGood(ks);
    ParseExampleSections(ks);
    ExampleKeys(ParseKinds(ks).sections);
    ParseExampleOrder(ks);
  }

  /** The six lines of the example, one heading numbered. */
  const ExampleLines: seq<string> := ["Abstract", "One", "two.", "", "1. Introduction", "Three."]

  /**
   * `parse_text` of the example lines written one per line, each ended by a
   * newline: "Abstract" and "1. Introduction" are
   * headings, the numbering is dropped from the second, the two body lines
   * under "Abstract" are joined into one paragraph, and the empty
   * "Uncategorized" section is cleaned away.
   */
  lemma ParseTextExample(text: string)
    requires text == Join("\n", ExampleLines) + "\n"
    ensures ParseText(text).sections ==
      map["Abstract" := [Text("One two.")], "Introduction" := [Text("Three.")]]
    ensures ParseText(text).order == ["Abstract", "Introduction"]
  {
    ExampleTextLines(text);
    ParseLinesExample(ExampleLines);
  }

  lemma ExampleTextLines(text: string)
    requires text == Join("\n", ExampleLines) + "\n"
    ensures SplitLines(text) == ExampleLines
  {
    ExampleLinesPlain();
    SplitLinesJoin(ExampleLines);
  }

  lemma ExampleLinesPlain()
    ensures forall i :: 0 <= i < |ExampleLines| ==> NoLineBreak(ExampleLines[i])
  {
  }

  /** `parse_text` over the six example lines. */
  lemma ParseLinesExample(lines: seq<string>)
    requires lines == ExampleLines
    ensures ParseLines(lines).sections ==
      map["Abstract" := [Text("One two.")], "Introduction" := [Text("Three.")]]
    ensures ParseLines(lines).order == ["Abstract", "Introduction"]
  {
    ExampleLineKinds(lines);
    ParseExample(Kinds(lines));
  }

  /** The lines classify to the example kinds. */
  lemma ExampleLineKinds(lines: seq<string>)
    requires lines == ExampleLines
    ensures Kinds(lines) == ExampleKinds
  {
    forall i | 0 <= i < |lines| ensures Kind(lines[i]) == ExampleKinds[i] {
      KindOfLine(lines[i], i);
    }
    KindsPointwise(lines, ExampleKinds);
  }

  /** `Kinds` is determined line by line. */
  lemma KindsPointwise(lines: seq<string>, ks: seq<LineKind>)
    requires |ks| == |lines|
    requires forall i :: 0 <= i < |lines| ==> Kind(lines[i]) == ks[i]
    ensures Kinds(lines) == ks
  {
  }

  lemma KindOfLine(line: string, i: nat)
    requires i < 6 && line == ExampleLines[i]
    ensures Kind(line) == ExampleKinds[i]
  {
    var k := ExampleKinds[i];
    if i == 0 {
      assert line == "Abstract" && k == HeadingLine("Abstract");
      AbstractLine(line);
    } else if i == 1 {
      assert line == "One" && k == BodyLine("One");
      BodyWordLine(line, "one");
    } else if i == 2 {
      assert line == "two." && k == BodyLine("two.");
      BodyWordLine(line, "two.");
    } else if i == 3 {
      assert line == "" && k == Blank;
      BlankLine(line);
    } else if i == 4 {
      assert line == "1. Introduction" && k == HeadingLine("Introduction");
      NumberedIntroductionLine(line);
    } else {
      assert line == "Three." && k == BodyLine("Three.");
      BodyWordLine(line, "three.");
    }
  }

  lemma BlankLine(line: string)
    requires line == ""
    ensures Kind(line) == Blank
  {
  }

  /**
   * A line that is one word not starting with a digit: its candidate is the
   * word lower-cased, and it is a heading exactly when that is a phrase.
   */
  lemma WordLineKind(w: string, l: string)
    requires IsWord(w) && l == Lower(w) && !IsDigit(l[0])
    ensures Kind(w) == if [l] in HeadingPhrases then HeadingLine(Title(l)) else BodyLine(w)
  {
    StrippedFixpoint(w);
    CandidateOfWord(w, l);
    SplitWordsFirst(l, "");
    WordLineKindOf(w, l, Kind(w));
  }

  lemma WordLineKindOf(w: string, l: string, k: LineKind)
    requires Strip(w) == w && w != "" && Candidate(w) == l
    requires SplitWords(l + "") == [l] + SplitWords("")
    requires k == Kind(w)
    ensures k == if [l] in HeadingPhrases then HeadingLine(Title(l)) else BodyLine(w)
  {
    assert l + "" == l;
    assert SplitWords(l) == [l];
  }

  lemma BodyWordLine(w: string, l: string)
    requires (w == "One" && l == "one") || (w == "two." && l == "two.") || (w == "Three." && l == "three.")
    ensures Kind(w) == BodyLine(w)
  {
    assert IsWord(w) && l == Lower(w) && !IsDigit(l[0]);
    assert [l] !in HeadingPhrases;
    WordLineKind(w, l);
  }

  lemma AbstractLine(w: string)
    requires w == "Abstract"
    ensures Kind(w) == HeadingLine(w)
  {
    var l := "abstract";
    assert IsWord(w) && Lower(w) == l && !IsDigit(l[0]);
    assert [l] in HeadingPhrases;
    WordLineKind(w, l);
    AbstractTitle(l);
  }

  lemma AbstractTitle(l: string)
    requires l == "abstract"
    ensures Title(l) == "Abstract"
  {
    assert IsLower(l[0]) && IsLower(l[7]);
    TitleOfLowerWord(l);
    CapitalAbstract(l);
  }

  lemma CapitalAbstract(l: string)
    requires l == "abstract"
    ensures [UpperChar(l[0])] + l[1..] == "Abstract"
  {
    assert UpperChar('a') == 'A';
  }

  /** A stripped line that `_detect_heading` names is a heading line of that name. */
  lemma HeadingLineOf(line: string, h: string)
    requires Strip(line) == line && DetectHeading(line) == Some(h)
    ensures Kind(line) == HeadingLine(h)
  {
  }

  /** The numbered heading is recognised and loses its numbering. */
  lemma NumberedIntroductionLine(s: string)
    requires s == "1. Introduction"
    ensures Kind(s) == HeadingLine("Introduction")
  {
    NumberedHeadingExample();
    NumberedIntroductionStripped(s);
    HeadingLineOf(s, "Introduction");
  }

  lemma NumberedIntroductionStripped(s: string)
    requires s == "1. Introduction"
    ensures Strip(s) == s
  {
    assert s[0] == '1' && s[|s| - 1] == 'n';
    StrippedFixpoint(s);
  }

  lemma ExampleKeys(m: map<string, seq<Element>>)
    requires m == map["Abstract" := [Text("One two.")], "Introduction" := [Text("Three.")]]
    ensures m.Keys == {"Abstract", "Introduction"}
  {
  }

  lemma ParseExampleSections(ks: seq<LineKind>)
    requires ks == ExampleKinds && GoodKinds(ks)
    ensures ParseKinds(ks).sections == map["Abstract" := [Text("One two.")], "Introduction" := [Text("Three.")]]
  {
    ParseKindsContent(ks);
    ExampleRuns();
    ExampleSections(ParseKinds(ks).sections);
  }

  lemma ParseExampleOrder(ks: seq<LineKind>)
    requires ks == ExampleKinds && GoodKinds(ks)
    requires ParseKinds(ks).sections.Keys == {"Abstract", "Introduction"}
    ensures ParseKinds(ks).order == ["Abstract", "Introduction"]
  {
    ParseKindsOrder(ks);
    ExampleOrder(ks, ParseKinds(ks).sections.Keys);
  }

  lemma ExampleSections(m: map<string, seq<Element>>)
    requires forall n :: n in m <==> Group(ExampleLog, n) != []
    requires forall n :: n in m ==> m[n] == Group(ExampleLog, n)
    ensures m == map["Abstract" := [Text("One two.")], "Introduction" := [Text("Three.")]]
  {
    var e := map["Abstract" := [Text("One two.")], "Introduction" := [Text("Three.")]];
    forall n ensures n in m <==> n in e {
      ExampleGroups(n);
    }
    forall n | n in m ensures m[n] == e[n] {
      ExampleGroups(n);
    }
  }

  lemma ExampleNames()
    ensures HeadingNames(ExampleKinds) == ["Abstract", "Introduction"]
  {
    var ks := ExampleKinds;
    assert HeadingNames(ks[5..]) == [];
    assert HeadingNames(ks[4..]) == ["Introduction"] by { assert ks[4..][1..] == ks[5..]; }
    assert HeadingNames(ks[3..]) == ["Introduction"] by { assert ks[3..][1..] == ks[4..]; }
    assert HeadingNames(ks[2..]) == ["Introduction"] by { assert ks[2..][1..] == ks[3..]; }
    assert HeadingNames(ks[1..]) == ["Introduction"] by { assert ks[1..][1..] == ks[2..]; }
  }

  lemma ExampleOrder(ks: seq<LineKind>, keep: set<string>)
    requires ks == ExampleKinds
    requires keep == {"Abstract", "Introduction"}
    ensures Survivors(AppendUnseen([], [Uncategorized] + HeadingNames(ks)), keep) == ["Abstract", "Introduction"]
  {
    ExampleNames();
    var names := [Uncategorized, "Abstract", "Introduction"];
    assert [Uncategorized] + HeadingNames(ExampleKinds) == names;
    assert AppendUnseen([], names) == names by {
      assert AppendUnseen([Uncategorized, "Abstract", "Introduction"], []) == names;
      assert AppendUnseen([Uncategorized, "Abstract"], names[2..]) == names;
      assert "Abstract" !in [Uncategorized] && [Uncategorized] + ["Abstract"] == [Uncategorized, "Abstract"];
      assert "Introduction" !in [Uncategorized, "Abstract"];
      assert [Uncategorized, "Abstract"] + ["Introduction"] == names;
      assert names[1..][1..] == names[2..] && names[2..][1..] == [];
      assert AppendUnseen([Uncategorized], names[1..]) == names;
      assert Uncategorized !in [] && [] + [Uncategorized] == [Uncategorized];
    }
    assert Uncategorized !in keep;
    assert Survivors(names[2..], keep) == ["Introduction"];
  }
}
