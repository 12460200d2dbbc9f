/**
 * The pure parts of `ExportService`: the style chosen in `__init__` (a
 * copy of a preset, updated key by key from a custom style), the author and
 * institution defaults, and the greedy word wrap `_wrap` used for PDF text.
 */
module ExportService {
  import opened Options
  import opened PyStr

  // ---------------------------------------------------------------- styles

  /** A value of a style dictionary: a string, an int, a float or a bool. */
  datatype StyleValue = Str(s: string) | Int(i: int) | Float(f: real) | Flag(b: bool)

  type Style = map<string, StyleValue>

  /** The keys every preset defines. */
  const StyleKeys: set<string> :=
    {"font", "font_size", "line_spacing", "margin_in", "heading_size", "alignment", "title_page"}

  function PresetStyle(font: string, size: int, spacing: real, margin: real, heading: int, align: string, titlePage: bool): (s: Style)
    ensures s.Keys == StyleKeys
  {
    map["font" := Str(font), "font_size" := Int(size), "line_spacing" := Float(spacing),
        "margin_in" := Float(margin), "heading_size" := Int(heading), "alignment" := Str(align),
        "title_page" := Flag(titlePage)]
  }

  /** `STYLE_PRESETS` */
  const Presets: map<string, Style> := map[
    "APA" := PresetStyle("Times New Roman", 12, 2.0, 1.0, 14, "left", true),
    "IEEE" := PresetStyle("Times New Roman", 10, 1.0, 0.75, 12, "justify", false),
    "MLA" := PresetStyle("Times New Roman", 12, 2.0, 1.0, 13, "left", true),
    "Custom" := PresetStyle("Arial", 12, 1.5, 1.0, 14, "left", true)
  ]

  /** `STYLE_PRESETS.get(choice, STYLE_PRESETS["APA"])` */
  function Preset(choice: string): (s: Style)
    ensures s.Keys == StyleKeys
    ensures choice in Presets ==> s == Presets[choice]
    ensures choice !in Presets ==> s == Presets["APA"]
  {
    if choice in Presets then Presets[choice] else Presets["APA"]
  }

  /** What `__init__` sets up: the style, the author, the institution and the image width in inches. */
  datatype Exporter = Exporter(style: Style, author: string, institution: string, imageWidth: real)

  /** `value or fallback` for an optional string: `None` and "" are both falsy. */
  function OrDefault(value: Option<string>, fallback: string): (r: string)
    ensures value.Some? && value.value != "" ==> r == value.value
    ensures value == None || value == Some("") ==> r == fallback
  {
    if value.Some? && value.value != "" then value.value else fallback
  }

  /**
   * `ExportService.__init__`: a copy of the chosen preset (APA for an unknown
   * name) updated by a non-empty custom style, and the defaults for a
   * missing author or institution.
   */
  function NewExporter(choice: string, custom: Option<Style>, author: Option<string>, institution: Option<string>): (r: Exporter)
    ensures forall k :: k in r.style <==> k in Preset(choice) || (custom.Some? && k in custom.value)
    ensures forall k :: k in r.style ==>
      r.style[k] == if custom.Some? && k in custom.value then custom.value[k] else Preset(choice)[k]
    ensures r.author == OrDefault(author, "Anonymous")
    ensures r.institution == OrDefault(institution, "Unknown Institution")
    ensures r.imageWidth == 4.5
  {
    var base := Preset(choice);
    var style := if custom.Some? && custom.value != map[] then base + custom.value else base;
    Exporter(style, OrDefault(author, "Anonymous"), OrDefault(institution, "Unknown Institution"), 4.5)
  }

  /** Every style an exporter ends up with defines at least the preset keys. */
  lemma StyleHasPresetKeys(choice: string, custom: Option<Style>, author: Option<string>, institution: Option<string>)
    ensures StyleKeys <= NewExporter(choice, custom, author, institution).style.Keys
  {
  }

  /** Without a custom style, the style is exactly the preset, APA for an unknown name. */
  lemma PlainPreset(choice: string, author: Option<string>, institution: Option<string>)
    ensures NewExporter(choice, None, author, institution).style == Preset(choice)
    ensures NewExporter(choice, Some(map[]), author, institution).style == Preset(choice)
    ensures choice !in Presets ==> NewExporter(choice, None, author, institution).style == Presets["APA"]
  {
    var s := NewExporter(choice, None, author, institution).style;
    assert s.Keys == Preset(choice).Keys;
    var e := NewExporter(choice, Some(map[]), author, institution).style;
    assert e.Keys == Preset(choice).Keys;
  }

  /** IEEE with a custom font size: the size is overridden and the other IEEE values stay. */
  lemma IeeeExample()
    ensures var r := NewExporter("IEEE", Some(map["font_size" := Int(11)]), None, Some(""));
      && r.style["font_size"] == Int(11)
      && r.style["alignment"] == Str("justify")
      && r.style["title_page"] == Flag(false)
      && r.author == "Anonymous" && r.institution == "Unknown Institution"
  {
    assert "IEEE" in Presets;
    var p := Preset("IEEE");
    assert p["alignment"] == Str("justify") && p["title_page"] == Flag(false);
  }

  // ---------------------------------------------------------------- word wrap

  /**
   * The loop of `_wrap` from the state (`out`, `line`) with the words `ws`
   * still to place: a word joins the line when `len(line) + len(w) + 1`
   * is at most `width`, otherwise the line is emitted and the word starts the
   * next; at the end a non-empty line is emitted.
   */
  function Fill(ws: seq<string>, out: seq<string>, line: string, width: int): seq<string>
    decreases |ws|
  {
    if ws == [] then (if line != "" then out + [line] else out)
    else if |line| + |ws[0]| + 1 <= width then Fill(ws[1..], out, Strip(line + " " + ws[0]), width)
    else Fill(ws[1..], out + [line], ws[0], width)
  }

  /** `_wrap(text, width)`, whose default width is 90. */
  function Wrap(text: string, width: int): seq<string> {
    Fill(SplitWords(text), [], "", width)
  }

  /** The words of the lines, in order. */
  function LinesWords(ls: seq<string>): seq<string>
    decreases |ls|
  {
    if ls == [] then [] else LinesWords(ls[..|ls| - 1]) + SplitWords(ls[|ls| - 1])
  }

  lemma LinesWordsSnoc(ls: seq<string>, l: string)
    ensures LinesWords(ls + [l]) == LinesWords(ls) + SplitWords(l)
  {
    assert (ls + [l])[..|ls|] == ls;
  }

  /** `(line + " " + w).strip()` on a line of words is the line with the word added. */
  lemma AddWord(cur: seq<string>, w: string)
    requires AllWords(cur) && IsWord(w)
    ensures Strip(Join(" ", cur) + " " + w) == Join(" ", cur + [w])
  {
    ConsWords(w, []);
    assert [w] + [] == [w];
    if cur == [] {
      assert Join(" ", cur) + " " + w == " " + w;
      assert cur + [w] == [w];
      JoinWordsStripped([w]);
      LStripSkips(" ", w);
      StrippedFixpoint(w);
    } else {
      JoinSnoc(" ", cur, w);
      SnocWords(cur, w);
      JoinWordsStripped(cur + [w]);
      StrippedFixpoint(Join(" ", cur + [w]));
    }
  }

  lemma SnocWords(cur: seq<string>, w: string)
    requires AllWords(cur) && IsWord(w)
    ensures AllWords(cur + [w])
  {
    assert forall i :: 0 <= i < |cur| ==> (cur + [w])[i] == cur[i];
  }

  lemma OneWord(w: string)
    ensures Join(" ", [w]) == w
  {
  }

  /**
   * One turn of the loop on a line of words `cur`: the next word joins the
   * line when it fits, otherwise the line is emitted and the word alone
   * starts the next one.
   */
  lemma FillNext(ws: seq<string>, out: seq<string>, cur: seq<string>, width: int)
    requires ws != [] && AllWords(ws) && AllWords(cur)
    ensures IsWord(ws[0]) && AllWords(ws[1..]) && AllWords(cur + [ws[0]]) && AllWords([ws[0]])
    ensures var line := Join(" ", cur); var w := ws[0];
      && (|line| + |w| + 1 <= width ==>
            Fill(ws, out, line, width) == Fill(ws[1..], out, Join(" ", cur + [w]), width))
      && (|line| + |w| + 1 > width ==>
            Fill(ws, out, line, width) == Fill(ws[1..], out + [line], Join(" ", [w]), width))
  {
    var w := ws[0];
    TailWords(ws);
    SnocWords(cur, w);
    ConsWords(w, []);
    assert [w] + [] == [w];
    OneWord(w);
    AddWord(cur, w);
  }

  /** At the end of the loop a line of words is emitted unless it is empty. */
  lemma FillDone(out: seq<string>, cur: seq<string>, width: int)
    requires AllWords(cur)
    ensures Fill([], out, Join(" ", cur), width) == if cur == [] then out else out + [Join(" ", cur)]
  {
    JoinWordsEmptyIff(cur);
  }

  /** The loop keeps every word, in order: the words of its lines are those of the text. */
  lemma {:induction false} FillWords(ws: seq<string>, out: seq<string>, cur: seq<string>, width: int)
    requires AllWords(ws) && AllWords(cur)
    ensures LinesWords(Fill(ws, out, Join(" ", cur), width)) == LinesWords(out) + cur + ws
    decreases |ws|
  {
    if ws == [] {
      FillWordsDone(out, cur, width);
    } else {
      var w, rest := ws[0], ws[1..];
      HeadTail(ws);
      FillNext(ws, out, cur, width);
      if |Join(" ", cur)| + |w| + 1 <= width {
        var next := cur + [w];
        FillWords(rest, out, next, width);
        Regroup(LinesWords(out), cur, w, rest);
      } else {
        var line := Join(" ", cur);
        FillWords(rest, out + [line], [w], width);
        LinesWordsSnoc(out, line);
        SplitJoin(cur);
        Regroup(LinesWords(out), cur, w, rest);
      }
    }
  }

  lemma FillWordsDone(out: seq<string>, cur: seq<string>, width: int)
    requires AllWords(cur)
    ensures LinesWords(Fill([], out, Join(" ", cur), width)) == LinesWords(out) + cur + []
  {
    FillDone(out, cur, width);
    if cur != [] {
      LinesWordsSnoc(out, Join(" ", cur));
      SplitJoin(cur);
    }
  }

  /** The words of a turn of the loop, regrouped: `cur + [w]` then `rest` is `cur` then `[w] + rest`. */
  lemma Regroup(a: seq<string>, b: seq<string>, w: string, rest: seq<string>)
    ensures a + (b + [w]) + rest == a + b + ([w] + rest)
    ensures (a + b) + [w] + rest == a + b + ([w] + rest)
  {
  }

  /** `_wrap` keeps the words: splitting its lines again gives `text.split()`. */
  lemma WrapKeepsWords(text: string, width: int)
    ensures LinesWords(Wrap(text, width)) == SplitWords(text)
  {
    FillWords(SplitWords(text), [], [], width);
    assert Join(" ", []) == "";
  }

  /** A line of two or more words is no longer than `width`. */
  predicate Fits(l: string, width: int) {
    |SplitWords(l)| >= 2 ==> |l| <= width
  }

  predicate AllFit(ls: seq<string>, width: int) {
    forall k :: 0 <= k < |ls| ==> Fits(ls[k], width)
  }

  /** The loop's invariant on the line it is building. */
  predicate LineFits(cur: seq<string>, width: int) {
    |cur| >= 2 ==> |Join(" ", cur)| <= width
  }

  lemma AllFitSnoc(ls: seq<string>, cur: seq<string>, width: int)
    requires AllFit(ls, width) && AllWords(cur) && LineFits(cur, width)
    ensures AllFit(ls + [Join(" ", cur)], width)
  {
    SplitJoin(cur);
    assert forall k :: 0 <= k < |ls| ==> (ls + [Join(" ", cur)])[k] == ls[k];
  }

  /** A word that fits keeps the line within `width`. */
  lemma AddFits(cur: seq<string>, w: string, width: int)
    requires |Join(" ", cur)| + |w| + 1 <= width
    ensures LineFits(cur + [w], width)
  {
    if cur != [] {
      JoinSnoc(" ", cur, w);
    }
  }

  lemma {:induction false} FillFits(ws: seq<string>, out: seq<string>, cur: seq<string>, width: int)
    requires AllWords(ws) && AllWords(cur) && AllFit(out, width) && LineFits(cur, width)
    ensures AllFit(Fill(ws, out, Join(" ", cur), width), width)
    decreases |ws|
  {
    var line := Join(" ", cur);
    if ws == [] {
      FillDone(out, cur, width);
      if cur != [] {
        AllFitSnoc(out, cur, width);
      }
    } else {
      var w := ws[0];
      FillNext(ws, out, cur, width);
      if |line| + |w| + 1 <= width {
        AddFits(cur, w, width);
        FillFits(ws[1..], out, cur + [w], width);
      } else {
        AllFitSnoc(out, cur, width);
        FillFits(ws[1..], out + [line], [w], width);
      }
    }
  }

  /** Only a line holding a single word can be longer than `width`. */
  lemma WrapFits(text: string, width: int)
    ensures AllFit(Wrap(text, width), width)
  {
    FillFits(SplitWords(text), [], [], width);
    assert Join(" ", []) == "";
  }

  /** Once a line has a word, the loop only appends, and only non-empty lines. */
  lemma {:induction false} FillAppendsNonEmpty(ws: seq<string>, out: seq<string>, cur: seq<string>, width: int)
    requires AllWords(ws) && AllWords(cur) && cur != []
    ensures var r := Fill(ws, out, Join(" ", cur), width);
      |out| <= |r| && r[..|out|] == out && forall k :: |out| <= k < |r| ==> r[k] != ""
    decreases |ws|
  {
    var line := Join(" ", cur);
    JoinWordsEmptyIff(cur);
    if ws == [] {
      FillDone(out, cur, width);
      assert (out + [line])[..|out|] == out;
    } else {
      var w := ws[0];
      FillNext(ws, out, cur, width);
      if |line| + |w| + 1 <= width {
        FillAppendsNonEmpty(ws[1..], out, cur + [w], width);
      } else {
        FillAppendsNonEmpty(ws[1..], out + [line], [w], width);
        var r := Fill(ws, out, line, width);
        assert r[..|out| + 1] == out + [line];
        assert r[..|out|] == (out + [line])[..|out|];
      }
    }
  }

  /** Length of the first word of a line, 0 for a blank line. */
  function FirstWordLength(l: string): nat {
    var ws := SplitWords(l);
    if ws == [] then 0 else |ws[0]|
  }

  /** Greedy filling: the first word of each line would not have fitted on the non-empty line before it. */
  predicate Greedy(ls: seq<string>, width: int) {
    forall k :: 0 <= k < |ls| - 1 && ls[k] != "" ==> |ls[k]| + 1 + FirstWordLength(ls[k + 1]) > width
  }

  lemma FirstWordOfLine(cur: seq<string>)
    requires AllWords(cur) && cur != []
    ensures FirstWordLength(Join(" ", cur)) == |cur[0]|
  {
    SplitJoin(cur);
  }

  lemma GreedySnoc(ls: seq<string>, l: string, width: int)
    requires Greedy(ls, width)
    requires ls != [] && ls[|ls| - 1] != "" ==> |ls[|ls| - 1]| + 1 + FirstWordLength(l) > width
    ensures Greedy(ls + [l], width)
  {
    var all := ls + [l];
    forall k | 0 <= k < |all| - 1 && all[k] != "" ensures |all[k]| + 1 + FirstWordLength(all[k + 1]) > width {
      assert all[k] == ls[k];
      if k < |ls| - 1 {
        assert all[k + 1] == ls[k + 1];
      } else {
        assert all[k + 1] == l;
      }
    }
  }

  lemma {:induction false} FillGreedy(ws: seq<string>, out: seq<string>, cur: seq<string>, width: int)
    requires AllWords(ws) && AllWords(cur) && cur != [] && Greedy(out, width)
    requires out != [] && out[|out| - 1] != "" ==> |out[|out| - 1]| + 1 + |cur[0]| > width
    ensures Greedy(Fill(ws, out, Join(" ", cur), width), width)
    decreases |ws|
  {
    var line := Join(" ", cur);
    if ws == [] {
      FillDone(out, cur, width);
      FirstWordOfLine(cur);
      GreedySnoc(out, line, width);
    } else {
      var w := ws[0];
      FillNext(ws, out, cur, width);
      if |line| + |w| + 1 <= width {
        assert (cur + [w])[0] == cur[0];
        FillGreedy(ws[1..], out, cur + [w], width);
      } else {
        FirstWordOfLine(cur);
        GreedySnoc(out, line, width);
        var out' := out + [line];
        assert out'[|out'| - 1] == line;
        FillGreedy(ws[1..], out', [w], width);
      }
    }
  }

  /** The first turn of the loop, from the empty line. */
  lemma FillFromEmpty(ws: seq<string>, width: int)
    requires ws != [] && AllWords(ws)
    ensures AllWords(ws[1..]) && AllWords([ws[0]])
    ensures Fill(ws, [], "", width) ==
      if |ws[0]| + 1 <= width then Fill(ws[1..], [], Join(" ", [ws[0]]), width)
      else Fill(ws[1..], [""], Join(" ", [ws[0]]), width)
  {
    var e: seq<string> := [];
    assert Join(" ", e) == "";
    assert e + [ws[0]] == [ws[0]];
    assert e + [""] == [""];
    FillNext(ws, e, e, width);
  }

  /** From the empty line, the only empty line the loop can emit is the first, for a first word of `width` or more. */
  lemma FillEmptyLines(ws: seq<string>, width: int, r: seq<string>)
    requires AllWords(ws) && r == Fill(ws, [], "", width)
    ensures forall k :: 0 <= k < |r| ==> (r[k] == "" <==> k == 0 && ws != [] && |ws[0]| >= width)
  {
    if ws != [] {
      FillFromEmpty(ws, width);
      if |ws[0]| + 1 <= width {
        FillAppendsNonEmpty(ws[1..], [], [ws[0]], width);
      } else {
        FillAppendsNonEmpty(ws[1..], [""], [ws[0]], width);
        assert r[..1] == [""];
        assert r[0] == "";
      }
    }
  }

  /**
   * The empty string appears among the lines exactly as the first line, and
   * exactly when the first word is at least `width` long: `len("") + len(w) + 1`
   * exceeds `width`, so the still empty line is emitted.
   */
  lemma WrapEmptyLines(text: string, width: int)
    ensures var r := Wrap(text, width); var ws := SplitWords(text);
      forall k :: 0 <= k < |r| ==> (r[k] == "" <==> k == 0 && ws != [] && |ws[0]| >= width)
  {
    var ws := SplitWords(text);
    var r := Fill(ws, [], "", width);
    assert Wrap(text, width) == r;
    FillEmptyLines(ws, width, r);
  }

  /** `_wrap` starts a new line only when the next word does not fit on the current one. */
  lemma WrapGreedy(text: string, width: int)
    ensures Greedy(Wrap(text, width), width)
  {
    var ws := SplitWords(text);
    if ws != [] {
      FillFromEmpty(ws, width);
      if |ws[0]| + 1 <= width {
        FillGreedy(ws[1..], [], [ws[0]], width);
      } else {
        FillGreedy(ws[1..], [""], [ws[0]], width);
      }
    }
  }

  /** Empty or whitespace-only text gives no lines. */
  lemma BlankWrapsToNothing(text: string, width: int)
    requires AllSpace(text)
    ensures Wrap(text, width) == []
  {
    SplitWordsEmptyIff(text);
  }

  // ---------------------------------------------------------------- the leading empty line

  lemma SplitOneWord()
    ensures SplitWords("abc") == ["abc"]
  {
    SplitWordsFirst("abc", "");
    assert "abc" + "" == "abc";
    assert SplitWords("") == [];
  }

  /** A first word as long as the width puts an empty line in front. */
  lemma EmptyFirstLine()
    ensures Wrap("abc", 3) == ["", "abc"]
  {
    var ws := SplitWords("abc");
    SplitOneWord();
    FillFromEmpty(ws, 3);
    OneWord("abc");
    assert ws[1..] == [];
  }

  /**
   * The wrap as evidently intended: the first word always starts the first
   * line (the loop with `if not line: line = w` in front of the width test),
   * so no empty line is ever emitted.
   */
  function WrapFixed(text: string, width: int): seq<string> {
    var ws := SplitWords(text);
    if ws == [] then [] else Fill(ws[1..], [], ws[0], width)
  }

  /** The intended wrap keeps the words, fits lines of two or more words, and has no empty line. */
  lemma WrapFixedSpec(text: string, width: int)
    ensures LinesWords(WrapFixed(text, width)) == SplitWords(text)
    ensures AllFit(WrapFixed(text, width), width)
    ensures forall k :: 0 <= k < |WrapFixed(text, width)| ==> WrapFixed(text, width)[k] != ""
    ensures Greedy(WrapFixed(text, width), width)
    ensures AllSpace(text) ==> WrapFixed(text, width) == []
  {
    var ws := SplitWords(text);
    SplitWordsEmptyIff(text);
    if ws != [] {
      FillFromWord(ws, width);
    }
  }

  /** The loop started with the first word on the line. */
  lemma FillFromWord(ws: seq<string>, width: int)
    requires ws != [] && AllWords(ws)
    ensures var r := Fill(ws[1..], [], ws[0], width);
      && LinesWords(r) == ws && AllFit(r, width) && Greedy(r, width)
      && forall k :: 0 <= k < |r| ==> r[k] != ""
  {
    var w := ws[0];
    FillNext(ws, [], [], width);
    OneWord(w);
    FillWords(ws[1..], [], [w], width);
    StartWords(ws);
    FillFits(ws[1..], [], [w], width);
    FillAppendsNonEmpty(ws[1..], [], [w], width);
    FillGreedy(ws[1..], [], [w], width);
  }

  lemma StartWords(ws: seq<string>)
    requires ws != []
    ensures LinesWords([]) + [ws[0]] + ws[1..] == ws
  {
    HeadTail(ws);
  }

  /** Lines emitted before the current state stay in front of everything the loop adds. */
  lemma {:induction false} FillPrefix(ws: seq<string>, p: seq<string>, out: seq<string>, line: string, width: int)
    ensures Fill(ws, p + out, line, width) == p + Fill(ws, out, line, width)
    decreases |ws|
  {
    if ws == [] {
      assert (p + out) + [line] == p + (out + [line]);
    } else if |line| + |ws[0]| + 1 <= width {
      FillPrefix(ws[1..], p, out, Strip(line + " " + ws[0]), width);
    } else {
      FillPrefix(ws[1..], p, out + [line], ws[0], width);
      assert (p + out) + [line] == p + (out + [line]);
    }
  }

  /** The intended wrap is the written one without its spurious leading empty line. */
  lemma WrapFixedDropsEmptyLine(text: string, width: int)
    ensures var r := Wrap(text, width);
      WrapFixed(text, width) == if r != [] && r[0] == "" then r[1..] else r
  {
    var ws := SplitWords(text);
    var r := Wrap(text, width);
    if ws != [] {
      FillFromEmpty(ws, width);
      FillEmptyLines(ws, width, r);
      OneWord(ws[0]);
      if |ws[0]| + 1 > width {
        FillPrefix(ws[1..], [""], [], ws[0], width);
        assert [""] + [] == [""];
      }
    }
  }
}
