/**
 * Figure captions and "virtual" figures: `_detect_caption` with its
 * `FIGURE_CAPTION_PATTERN`, and `detect_virtual_image`, which turns a
 * paragraph that talks about a figure into an image element without a file.
 */
module Captions {
  import opened Options
  import opened PyStr
  import opened ContentModel

  /** The class `[:.\-)]` of the caption pattern. */
  predicate IsCaptionPunct(c: char) {
    c == ':' || c == '.' || c == '-' || c == ')'
  }

  /** `\s*\d+[:.\-)]\s+` matched at the start of `rest`. */
  predicate NumberTail(rest: string) {
    var a := LStrip(rest);
    var d := DigitRun(a);
    0 < d && d + 1 < |a| && IsCaptionPunct(a[d]) && IsSpace(a[d + 1])
  }

  /**
   * `FIGURE_CAPTION_PATTERN.match(s)`, the pattern `^fig(ure)?\s*\d+[:.\-)]\s+.*`
   * with `re.IGNORECASE`: "fig" or "figure" in any case, optional whitespace,
   * a number, one punctuation mark and at least one whitespace character.
   * The two readings of `(ure)?` are the two disjuncts.
   */
  predicate IsCaption(s: string) {
    var l := Lower(s);
    (StartsWith(l, "figure") && NumberTail(l[6..])) || (StartsWith(l, "fig") && NumberTail(l[3..]))
  }

  /** `t and FIGURE_CAPTION_PATTERN.match(t)`: present, non-empty and a caption. */
  predicate Matches(t: Option<string>) {
    t.Some? && t.value != "" && IsCaption(t.value)
  }

  /**
   * `_detect_caption(previous, current)`: the paragraph before an image wins
   * over the image's own paragraph; neither matching gives no caption.
   */
  function DetectCaption(previous: Option<string>, current: Option<string>): (r: Option<string>)
    ensures r.Some? ==> IsCaption(r.value) && (r == previous || r == current)
    ensures Matches(previous) ==> r == previous
    ensures !Matches(previous) && Matches(current) ==> r == current
    ensures r == None <==> !Matches(previous) && !Matches(current)
  {
    if Matches(previous) then previous
    else if Matches(current) then current
    else None
  }

  /** The empty string is never a caption, so `None` and `""` are treated alike. */
  lemma EmptyIsNoCaption()
    ensures !IsCaption("")
    ensures forall t: Option<string> :: t.Some? && t.value == "" ==> !Matches(t)
  {
    assert Lower("") == "";
  }

  /** The pattern ignores case. */
  lemma CaptionIgnoresCase(s: string)
    ensures IsCaption(Lower(s)) <==> IsCaption(s)
  {
    LowerIdempotent(s);
  }

  lemma LowerOfDigits(n: string)
    requires forall i :: 0 <= i < |n| ==> IsDigit(n[i])
    ensures Lower(n) == n
  {
    LowerKeeps(n);
  }

  lemma LowerOfSpace(sp: string)
    requires AllSpace(sp)
    ensures Lower(sp) == sp
  {
    LowerKeeps(sp);
  }

  /**
   * A caption taken apart: the keyword in any case, optional whitespace, a
   * number, one punctuation mark, at least one whitespace character and
   * whatever follows.
   */
  predicate CaptionParts(s: string, word: string, sp: string, n: string, p: char, ws: string, t: string) {
    && s == word + sp + n + [p] + ws + t
    && (Lower(word) == "figure" || Lower(word) == "fig")
    && AllSpace(sp)
    && n != "" && (forall i :: 0 <= i < |n| ==> IsDigit(n[i]))
    && IsCaptionPunct(p)
    && ws != "" && AllSpace(ws)
  }

  /** What follows "fig" or "figure" in a caption of the standard form matches `NumberTail`. */
  lemma NumberTailForm(sp: string, n: string, p: char, ws: string, t: string)
    requires AllSpace(sp)
    requires n != "" && forall i :: 0 <= i < |n| ==> IsDigit(n[i])
    requires IsCaptionPunct(p)
    requires ws != "" && AllSpace(ws)
    ensures NumberTail(sp + n + [p] + ws + t)
  {
    var u := [p] + ws + t;
    var x := n + u;
    TailAssoc(sp, n, [p], ws, t);
    LStripSkips(sp, x);
    LStripOfStrippedEnd(n, u);
    DigitRunOfDigits(n, u);
    NumberThenPunct(n, p, ws, t);
  }

  lemma TailAssoc(a: string, b: string, c: string, d: string, e: string)
    ensures a + b + c + d + e == a + (b + (c + d + e))
  {
  }

  lemma NumberThenPunct(n: string, p: char, ws: string, t: string)
    requires ws != ""
    ensures var x := n + ([p] + ws + t); x[|n|] == p && x[|n| + 1] == ws[0]
  {
  }

  /** Lower-casing leaves the whitespace, digits and punctuation of a caption's number alone. */
  lemma LowerOfNumberTail(sp: string, n: string, p: char, ws: string, t: string)
    requires AllSpace(sp)
    requires forall i :: 0 <= i < |n| ==> IsDigit(n[i])
    requires IsCaptionPunct(p)
    requires AllSpace(ws)
    ensures Lower(sp + n + [p] + ws + t) == sp + n + [p] + ws + Lower(t)
  {
    var h := sp + n + [p] + ws;
    LowerAppend(h, t);
    LowerKeeps(h);
  }

  /** A caption keyword followed by a matching tail is a caption. */
  lemma CaptionOfParts(word: string, rest: string)
    requires Lower(word) == "figure" || Lower(word) == "fig"
    requires NumberTail(Lower(rest))
    ensures IsCaption(word + rest)
  {
    LowerAppend(word, rest);
    KeywordThenTail(Lower(word), Lower(rest));
  }

  lemma KeywordThenTail(w: string, r: string)
    requires w == "figure" || w == "fig"
    requires NumberTail(r)
    ensures var l := w + r; (StartsWith(l, "figure") && NumberTail(l[6..])) || (StartsWith(l, "fig") && NumberTail(l[3..]))
  {
    var l := w + r;
    assert l[..|w|] == w && l[|w|..] == r;
    assert l[0..|w|] == w;
  }

  /**
   * Every text of the form "Figure <digits><punct><whitespace><anything>" or
   * "Fig<digits><punct><whitespace><anything>", with any case and any
   * whitespace before the number, is a caption.
   */
  lemma CaptionForm(word: string, sp: string, n: string, p: char, ws: string, t: string)
    requires Lower(word) == "figure" || Lower(word) == "fig"
    requires AllSpace(sp)
    requires n != "" && forall i :: 0 <= i < |n| ==> IsDigit(n[i])
    requires IsCaptionPunct(p)
    requires ws != "" && AllSpace(ws)
    ensures IsCaption(word + sp + n + [p] + ws + t)
  {
    var rest := sp + n + [p] + ws + t;
    LowerOfNumberTail(sp, n, p, ws, t);
    NumberTailForm(sp, n, p, ws, Lower(t));
    CaptionOfParts(word, rest);
    ConcatAssoc(word, sp, n, [p], ws, t);
  }

  lemma ConcatAssoc(a: string, b: string, c: string, d: string, e: string, f: string)
    ensures a + (b + c + d + e + f) == a + b + c + d + e + f
  {
  }

  /** The pattern matches exactly the texts that come apart as a caption does. */
  lemma CaptionIff(s: string)
    ensures IsCaption(s) <==> exists word, sp, n, p, ws, t :: CaptionParts(s, word, sp, n, p, ws, t)
  {
    if IsCaption(s) {
      var word, sp, n, p, ws, t := CaptionParse(s);
    }
    if exists word, sp, n, p, ws, t :: CaptionParts(s, word, sp, n, p, ws, t) {
      var word, sp, n, p, ws, t :| CaptionParts(s, word, sp, n, p, ws, t);
      CaptionForm(word, sp, n, p, ws, t);
    }
  }

  /** Every caption comes apart as keyword, whitespace, number, punctuation, whitespace, rest. */
  lemma CaptionParse(s: string) returns (word: string, sp: string, n: string, p: char, ws: string, t: string)
    requires IsCaption(s)
    ensures CaptionParts(s, word, sp, n, p, ws, t)
  {
    var l := Lower(s);
    var k := if StartsWith(l, "figure") && NumberTail(l[6..]) then 6 else 3;
    assert l[..k] == (if k == 6 then "figure" else "fig") && NumberTail(l[k..]);
    word := s[..k];
    var rest := s[k..];
    LowerSlice(s, 0, k);
    assert s[0..k] == word;
    LowerSuffix(s, k);
    sp, n, p, ws, t := NumberTailParse(rest);
    TakeDrop(s, k);
    ConcatAssoc(word, sp, n, [p], ws, t);
  }

  /** What follows the keyword of a caption, taken apart. */
  lemma NumberTailParse(rest: string) returns (sp: string, n: string, p: char, ws: string, t: string)
    requires NumberTail(Lower(rest))
    ensures rest == sp + n + [p] + ws + t
    ensures AllSpace(sp)
    ensures n != "" && forall i :: 0 <= i < |n| ==> IsDigit(n[i])
    ensures IsCaptionPunct(p)
    ensures ws != "" && AllSpace(ws)
  {
    var m, d := NumberTailShape(Lower(rest));
    UnLower(rest, m, d);
    sp, n, p, ws, t := TailParts(rest, m, d);
  }

  /** The pieces of a tail whose shape is known. */
  lemma TailParts(rest: string, m: nat, d: nat) returns (sp: string, n: string, p: char, ws: string, t: string)
    requires 0 < d && m + d + 2 <= |rest|
    requires forall i :: 0 <= i < m ==> IsSpace(rest[i])
    requires forall i :: m <= i < m + d ==> IsDigit(rest[i])
    requires IsCaptionPunct(rest[m + d]) && IsSpace(rest[m + d + 1])
    ensures rest == sp + n + [p] + ws + t
    ensures AllSpace(sp)
    ensures n != "" && forall i :: 0 <= i < |n| ==> IsDigit(n[i])
    ensures IsCaptionPunct(p)
    ensures ws != "" && AllSpace(ws)
  {
    sp := rest[..m];
    n := rest[m..m + d];
    p := rest[m + d];
    ws := rest[m + d + 1..m + d + 2];
    t := rest[m + d + 2..];
    FiveParts(rest, m, m + d);
  }

  /** Where the whitespace, the number, the mark and the whitespace after it lie in a matching tail. */
  lemma NumberTailShape(r: string) returns (m: nat, d: nat)
    requires NumberTail(r)
    ensures 0 < d && m + d + 2 <= |r|
    ensures forall i :: 0 <= i < m ==> IsSpace(r[i])
    ensures forall i :: m <= i < m + d ==> IsDigit(r[i])
    ensures IsCaptionPunct(r[m + d]) && IsSpace(r[m + d + 1])
  {
    var a := LStrip(r);
    m := |r| - |a|;
    d := DigitRun(a);
    assert a == r[m..];
    forall i | m <= i < m + d ensures IsDigit(r[i]) {
      assert r[i] == a[i - m];
    }
    assert r[m + d] == a[d] && r[m + d + 1] == a[d + 1];
  }

  /** The same shape holds before lower-casing. */
  lemma UnLower(x: string, m: nat, d: nat)
    requires m + d + 2 <= |x|
    requires forall i :: 0 <= i < m ==> IsSpace(Lower(x)[i])
    requires forall i :: m <= i < m + d ==> IsDigit(Lower(x)[i])
    requires IsCaptionPunct(Lower(x)[m + d]) && IsSpace(Lower(x)[m + d + 1])
    ensures forall i :: 0 <= i < m ==> IsSpace(x[i])
    ensures forall i :: m <= i < m + d ==> IsDigit(x[i])
    ensures IsCaptionPunct(x[m + d]) && IsSpace(x[m + d + 1])
  {
    forall i | 0 <= i < m ensures IsSpace(x[i]) {
      LowerCharSpace(x[i]);
    }
    forall i | m <= i < m + d ensures IsDigit(x[i]) {
      LowerCharKept(x[i]);
    }
    LowerCharKept(x[m + d]);
    LowerCharSpace(x[m + d + 1]);
  }

  /** A character whose lower-case form is not a lower-case letter was not changed. */
  lemma LowerCharKept(c: char)
    ensures !IsLower(LowerChar(c)) ==> LowerChar(c) == c
  {
  }

  lemma FiveParts(x: string, a: nat, b: nat)
    requires a <= b && b + 2 <= |x|
    ensures x == x[..a] + x[a..b] + [x[b]] + x[b + 1..b + 2] + x[b + 2..]
  {
  }

  /**
   * "Fig." followed by a number is not a caption: after "fig" the pattern
   * wants whitespace or a digit, and "ure" is not there either.
   */
  lemma FigDotIsNoCaption(s: string)
    requires StartsWith(Lower(s), "fig.")
    ensures !IsCaption(s)
  {
    var l := Lower(s);
    assert l[3] == '.';
    assert !StartsWith(l, "figure") by { assert "figure"[3] == 'u'; }
    assert l[3..][0] == '.';
    assert LStrip(l[3..]) == l[3..];
  }

  /** A caption line right before an image is taken, whatever the image's own paragraph says. */
  lemma PreviousCaptionExample(current: Option<string>)
    ensures DetectCaption(Some("Figure 1: Sample output"), current) == Some("Figure 1: Sample output")
  {
    FigureWord();
    CaptionForm("Figure", " ", "1", ':', " ", "Sample output");
    SampleOutputParts();
  }

  lemma FigureWord()
    ensures Lower("Figure") == "figure"
  {
  }

  lemma SampleOutputParts()
    ensures "Figure" + " " + "1" + [':'] + " " + "Sample output" == "Figure 1: Sample output"
  {
  }

  /** The dotted abbreviation in "Fig. 2 - Growth chart" keeps it from being a caption. */
  lemma DottedFigureExample()
    ensures DetectCaption(Some("Fig. 2 - Growth chart"), None) == None
  {
    DottedFigureLower();
    FigDotIsNoCaption("Fig. 2 - Growth chart");
  }

  lemma DottedFigureLower()
    ensures StartsWith(Lower("Fig. 2 - Growth chart"), "fig.")
  {
    var s := "Fig. 2 - Growth chart";
    assert Lower(s)[..4] == [LowerChar('F'), 'i', 'g', '.'];
  }

  // ---------------------------------------------------------------- virtual figures

  /** The keywords `detect_virtual_image` looks for. */
  const FigureKeywords: seq<string> := ["figure", "fig.", "graph", "chart", "plot", "diagram"]

  /** `any(k in text.lower() for k in keywords)` */
  predicate MentionsFigure(text: string) {
    exists i | 0 <= i < |FigureKeywords| :: Contains(Lower(text), FigureKeywords[i])
  }

  /**
   * `detect_virtual_image`: an image element with no file, the paragraph as
   * its caption, no alternative text and the virtual flag set, whenever the
   * paragraph mentions a figure keyword anywhere.
   */
  function DetectVirtualImage(text: string): (r: Option<Element>)
    ensures r.Some? <==> text != "" && MentionsFigure(text)
    ensures r.Some? ==> r.value == Image(None, Some(text), "", true)
  {
    if text == "" then None
    else if MentionsFigure(text) then Some(Image(None, Some(text), "", true))
    else None
  }

  /** The keyword test looks at substrings: a paragraph that mentions a figure still does inside longer text. */
  lemma VirtualImageInContext(a: string, text: string, b: string)
    requires DetectVirtualImage(text).Some?
    ensures DetectVirtualImage(a + text + b).Some?
  {
    var i :| 0 <= i < |FigureKeywords| && Contains(Lower(text), FigureKeywords[i]);
    LowerAppend(a + text, b);
    LowerAppend(a, text);
    ContainsInContext(Lower(a), Lower(text), Lower(b), FigureKeywords[i]);
    assert Contains(Lower(a + text + b), FigureKeywords[i]);
  }

  /** "paragraph" contains "graph", so an ordinary word triggers the detector. */
  lemma ParagraphExample()
    ensures DetectVirtualImage("paragraph") == Some(Image(None, Some("paragraph"), "", true))
  {
    LowerKeeps("paragraph");
    assert OccursAt("paragraph", "graph", 4);
    assert Contains(Lower("paragraph"), FigureKeywords[2]);
  }

  /** Empty text is never a virtual figure. */
  lemma EmptyIsNoVirtualImage()
    ensures DetectVirtualImage("") == None
  {
  }

  /** A caption that spells out "Figure" also makes its paragraph a virtual figure. */
  lemma FigureCaptionIsVirtual(s: string)
    requires IsCaption(s) && StartsWith(Lower(s), "figure")
    ensures DetectVirtualImage(s) == Some(Image(None, Some(s), "", true))
  {
    FigureKeyword(Lower(s));
  }

  lemma FigureKeyword(l: string)
    requires StartsWith(l, "figure")
    ensures Contains(l, FigureKeywords[0])
  {
    assert FigureKeywords[0] == "figure";
    assert OccursAt(l, FigureKeywords[0], 0);
  }
}
