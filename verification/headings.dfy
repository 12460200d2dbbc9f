/**
 * `DocumentHandler._detect_heading`: recognise a section heading such as
 * "Introduction" or "1. Introduction" and return its display name.
 *
 * The three regular expressions involved are written out as small matchers:
 * the numbering prefix `^\s*\d+[\.\)]\s*(.+)$`, its substitution form
 * `^\s*\d+[\.\)]\s*`, and the eleven anchored heading patterns.
 */
module Headings {
  import opened Options
  import opened PyStr

  /**
   * `SECTION_PATTERNS`, in order. Each pattern `^\s*(a|b|...)\s*$` is given
   * as its list of alternatives, and each alternative as its words, which
   * the pattern separates by `\s+`.
   */
  const SectionPatterns: seq<seq<seq<string>>> := [
    [["abstract"]],
    [["introduction"]],
    [["literature", "review"]],
    [["background"]],
    [["methodology"], ["materials", "and", "methods"], ["methods"]],
    [["experiment"], ["experimental", "setup"]],
    [["results"], ["findings"], ["analysis"]],
    [["discussion"], ["observations"]],
    [["conclusion"], ["summary"], ["closing", "remarks"]],
    [["future", "work"], ["recommendations"]],
    [["references"], ["bibliography"], ["works", "cited"]]
  ]

  /** The heading phrases the patterns recognise, as the word lists `split()` yields. */
  const HeadingPhrases: set<seq<string>> := {
    ["abstract"], ["introduction"], ["literature", "review"], ["background"],
    ["methodology"], ["materials", "and", "methods"], ["methods"],
    ["experiment"], ["experimental", "setup"],
    ["results"], ["findings"], ["analysis"],
    ["discussion"], ["observations"],
    ["conclusion"], ["summary"], ["closing", "remarks"],
    ["future", "work"], ["recommendations"],
    ["references"], ["bibliography"], ["works", "cited"]
  }

  /** `w1\s+w2 ... wn\s*$` matched from the start of `t`. */
  function MatchWords(t: string, words: seq<string>): bool
    decreases |words|
  {
    if words == [] then false
    else
      var w := words[0];
      var rest := if |w| <= |t| then t[|w|..] else "";
      && |w| <= |t| && t[..|w|] == w
      && if |words| == 1 then AllSpace(rest)
         else rest != "" && IsSpace(rest[0]) && MatchWords(LStrip(rest), words[1..])
  }

  /** `re.match(r'^\s*(w1\s+w2 ... wn)\s*$', s)` for one alternative of a pattern. */
  function MatchAlternative(s: string, words: seq<string>): bool {
    MatchWords(LStrip(s), words)
  }

  /** Some pattern of `SECTION_PATTERNS` matches the candidate. */
  predicate IsHeadingCandidate(c: string) {
    exists i, j | 0 <= i < |SectionPatterns| && 0 <= j < |SectionPatterns[i]| ::
      MatchAlternative(c, SectionPatterns[i][j])
  }

  /**
   * `\d+[\.\)]` at the start of `a`: the index just past the '.' or ')',
   * or nothing when `a` does not start with digits followed by one of them.
   */
  function NumberingEnd(a: string): (r: Option<nat>)
    ensures r.Some? ==> 0 < r.value <= |a| && IsDigit(a[0])
  {
    var d := DigitRun(a);
    if d == 0 || d == |a| || (a[d] != '.' && a[d] != ')') then None else Some(d + 1)
  }

  /**
   * `re.match(r'^\s*\d+[\.\)]\s*(.+)$', l)` and its group, for the stripped
   * line `l` it is applied to: a stripped line leaves no trailing newline for
   * `$` to stop before, so the group is everything after the spaces that
   * follow the numbering, and it must not contain a newline (`.`).
   */
  function NumberedRest(l: string): Option<string> {
    var a := LStrip(l);
    match NumberingEnd(a)
    case None => None
    case Some(k) =>
      var g := LStrip(a[k..]);
      if g == "" || '\n' in g then None else Some(g)
  }

  /** `re.sub(r'^\s*\d+[\.\)]\s*', '', text)`: drop a leading "<digits>." or "<digits>)". */
  function StripNumbering(text: string): string {
    var a := LStrip(text);
    match NumberingEnd(a)
    case None => text
    case Some(k) => LStrip(a[k..])
  }

  /** The lower-cased, stripped, numbering-free text the patterns are tried on. */
  function Candidate(text: string): string {
    var l := Strip(Lower(text));
    match NumberedRest(l)
    case Some(g) => Strip(g)
    case None => l
  }

  /**
   * `_detect_heading`: when the candidate matches a pattern, the original
   * text with its numbering removed, stripped and title-cased.
   */
  function DetectHeading(text: string): Option<string> {
    if text == "" then None
    else if IsHeadingCandidate(Candidate(text)) then Some(Title(Strip(StripNumbering(text))))
    else None
  }

  // ---------------------------------------------------------------- the patterns as word lists

  /** One step of `MatchWords` read through `split()`: the first word and what follows it. */
  lemma MatchWordsFirst(t: string, words: seq<string>)
    requires words != [] && AllWords(words)
    requires t != "" && !IsSpace(t[0])
    ensures SplitWords(t) == [t[..WordLength(t)]] + SplitWords(t[WordLength(t)..])
    ensures MatchWords(t, words) ==> WordLength(t) == |words[0]| && t[..|words[0]|] == words[0]
  {
    assert LStrip(t) == t;
    if MatchWords(t, words) {
      var w := words[0];
      var rest := t[|w|..];
      assert t == w + rest;
      WordLengthOfWord(w, rest);
    }
  }

  /** The first word of a matched text is the first pattern word, followed by the rest of the text. */
  lemma MatchWordsHead(t: string, words: seq<string>)
    requires words != [] && AllWords(words)
    requires t == "" || !IsSpace(t[0])
    requires MatchWords(t, words)
    ensures |words[0]| <= |t| && SplitWords(t) == [words[0]] + SplitWords(t[|words[0]|..])
  {
    var w := words[0];
    assert |w| <= |t| && t[..|w|] == w;
    assert IsWord(w);
    MatchWordsFirst(t, words);
  }

  /** The recursive case of `MatchWords`, unfolded once. */
  lemma MatchWordsMore(t: string, words: seq<string>)
    requires |words| >= 2 && MatchWords(t, words)
    ensures |words[0]| <= |t| && MatchWords(LStrip(t[|words[0]|..]), words[1..])
  {
  }

  /** The last case of `MatchWords`, unfolded once. */
  lemma MatchWordsLast(t: string, words: seq<string>)
    requires |words| == 1 && MatchWords(t, words)
    ensures |words[0]| <= |t| && AllSpace(t[|words[0]|..])
  {
  }

  lemma {:induction false} MatchWordsSplit(t: string, words: seq<string>)
    requires words != [] && AllWords(words)
    requires t == "" || !IsSpace(t[0])
    requires MatchWords(t, words)
    ensures SplitWords(t) == words
    decreases |words|
  {
    MatchWordsHead(t, words);
    var rest := t[|words[0]|..];
    if |words| == 1 {
      MatchWordsLast(t, words);
      SplitWordsEmptyIff(rest);
      ConsWords(SplitWords(t), SplitWords(rest), words);
    } else {
      MatchWordsMore(t, words);
      TailWords(words);
      SplitWordsLStrip(rest);
      MatchWordsSplit(LStrip(rest), words[1..]);
      ConsWords(SplitWords(t), SplitWords(rest), words);
    }
  }

  /** A list that is the first word followed by the rest of the words is the words. */
  lemma ConsWords(all: seq<string>, more: seq<string>, words: seq<string>)
    requires words != [] && all == [words[0]] + more && more == words[1..]
    ensures all == words
  {
    HeadTail(words);
  }

  lemma {:induction false} SplitMatchWords(t: string, words: seq<string>)
    requires words != [] && AllWords(words)
    requires t == "" || !IsSpace(t[0])
    requires SplitWords(t) == words
    ensures MatchWords(t, words)
    decreases |words|
  {
    assert t != "";
    MatchWordsFirst(t, words);
    var n := WordLength(t);
    var rest := t[n..];
    assert t[..n] == words[0];
    assert SplitWords(rest) == words[1..];
    if |words| == 1 {
      SplitWordsEmptyIff(rest);
    } else {
      SplitWordsLStrip(rest);
      assert AllWords(words[1..]);
      SplitMatchWords(LStrip(rest), words[1..]);
    }
  }

  /** An anchored pattern alternative accepts exactly the texts that `split()` into its words. */
  lemma MatchWordsIff(t: string, words: seq<string>)
    requires words != [] && AllWords(words)
    requires t == "" || !IsSpace(t[0])
    ensures MatchWords(t, words) <==> SplitWords(t) == words
  {
    if MatchWords(t, words) {
      MatchWordsSplit(t, words);
    }
    if SplitWords(t) == words {
      SplitMatchWords(t, words);
    }
  }

  lemma MatchAlternativeIff(s: string, words: seq<string>)
    requires words != [] && AllWords(words)
    ensures MatchAlternative(s, words) <==> SplitWords(s) == words
  {
    MatchWordsIff(LStrip(s), words);
    SplitWordsLStrip(s);
  }

  /** The alternatives of the patterns are exactly the heading phrases. */
  lemma PatternsArePhrases()
    ensures forall i, j | 0 <= i < |SectionPatterns| && 0 <= j < |SectionPatterns[i]| ::
      SectionPatterns[i][j] in HeadingPhrases
    ensures forall p | p in HeadingPhrases ::
      exists i, j | 0 <= i < |SectionPatterns| && 0 <= j < |SectionPatterns[i]| :: SectionPatterns[i][j] == p
  {
    PatternsInPhrases();
    PhrasesInPatterns();
  }

  lemma PatternsInPhrases()
    ensures forall i, j | 0 <= i < |SectionPatterns| && 0 <= j < |SectionPatterns[i]| ::
      SectionPatterns[i][j] in HeadingPhrases
  {
  }

  lemma PhrasesInPatterns()
    ensures forall p | p in HeadingPhrases ::
      exists i, j | 0 <= i < |SectionPatterns| && 0 <= j < |SectionPatterns[i]| :: SectionPatterns[i][j] == p
  {
    forall p | p in HeadingPhrases
      ensures exists i, j | 0 <= i < |SectionPatterns| && 0 <= j < |SectionPatterns[i]| :: SectionPatterns[i][j] == p
    {
      if p == ["abstract"] { assert SectionPatterns[0][0] == p; }
      else if p == ["introduction"] { assert SectionPatterns[1][0] == p; }
      else if p == ["literature", "review"] { assert SectionPatterns[2][0] == p; }
      else if p == ["background"] { assert SectionPatterns[3][0] == p; }
      else if p == ["methodology"] { assert SectionPatterns[4][0] == p; }
      else if p == ["materials", "and", "methods"] { assert SectionPatterns[4][1] == p; }
      else if p == ["methods"] { assert SectionPatterns[4][2] == p; }
      else if p == ["experiment"] { assert SectionPatterns[5][0] == p; }
      else if p == ["experimental", "setup"] { assert SectionPatterns[5][1] == p; }
      else if p == ["results"] { assert SectionPatterns[6][0] == p; }
      else if p == ["findings"] { assert SectionPatterns[6][1] == p; }
      else if p == ["analysis"] { assert SectionPatterns[6][2] == p; }
      else if p == ["discussion"] { assert SectionPatterns[7][0] == p; }
      else if p == ["observations"] { assert SectionPatterns[7][1] == p; }
      else if p == ["conclusion"] { assert SectionPatterns[8][0] == p; }
      else if p == ["summary"] { assert SectionPatterns[8][1] == p; }
      else if p == ["closing", "remarks"] { assert SectionPatterns[8][2] == p; }
      else if p == ["future", "work"] { assert SectionPatterns[9][0] == p; }
      else if p == ["recommendations"] { assert SectionPatterns[9][1] == p; }
      else if p == ["references"] { assert SectionPatterns[10][0] == p; }
      else if p == ["bibliography"] { assert SectionPatterns[10][1] == p; }
      else { assert p == ["works", "cited"]; assert SectionPatterns[10][2] == p; }
    }
  }

  /** A non-empty run of lower-case letters. */
  predicate IsLowerWord(w: string) {
    w != "" && forall k :: 0 <= k < |w| ==> IsLower(w[k])
  }

  predicate AllLowerWords(ws: seq<string>) {
    ws != [] && forall k :: 0 <= k < |ws| ==> IsLowerWord(ws[k])
  }

  lemma LowerWordsAreWords(ws: seq<string>)
    requires AllLowerWords(ws)
    ensures AllWords(ws)
  {
    forall k | 0 <= k < |ws| ensures IsWord(ws[k]) {
      assert IsLowerWord(ws[k]);
    }
  }

  /** Every alternative of every pattern is a list of lower-case words. */
  lemma PatternWordsAreLowerWords()
    ensures forall i, j | 0 <= i < |SectionPatterns| && 0 <= j < |SectionPatterns[i]| ::
      AllLowerWords(SectionPatterns[i][j]) && AllWords(SectionPatterns[i][j])
  {
    forall i, j | 0 <= i < |SectionPatterns| && 0 <= j < |SectionPatterns[i]|
      ensures AllLowerWords(SectionPatterns[i][j]) && AllWords(SectionPatterns[i][j])
    {
      var alt := SectionPatterns[i][j];
      AlternativeIsLowerWords(i, j);
      LowerWordsAreWords(alt);
    }
  }

  lemma AlternativeIsLowerWords(i: nat, j: nat)
    requires i < |SectionPatterns| && j < |SectionPatterns[i]|
    ensures AllLowerWords(SectionPatterns[i][j])
  {
    if i < 4 { EarlyAlternativesAreLowerWords(i, j); }
    else if i < 8 { MiddleAlternativesAreLowerWords(i, j); }
    else { LateAlternativesAreLowerWords(i, j); }
  }

  lemma EarlyAlternativesAreLowerWords(i: nat, j: nat)
    requires 0 <= i < 4 && j < |SectionPatterns[i]|
    ensures AllLowerWords(SectionPatterns[i][j])
  {
    if i == 0 { assert IsLowerWord("abstract"); }
    else if i == 1 { assert IsLowerWord("introduction"); }
    else if i == 2 { assert IsLowerWord("literature"); assert IsLowerWord("review"); }
    else { assert i == 3; assert IsLowerWord("background"); }
  }

  lemma MiddleAlternativesAreLowerWords(i: nat, j: nat)
    requires 4 <= i < 8 && j < |SectionPatterns[i]|
    ensures AllLowerWords(SectionPatterns[i][j])
  {
    if i == 4 { assert IsLowerWord("methodology"); assert IsLowerWord("materials"); assert IsLowerWord("and"); assert IsLowerWord("methods"); }
    else if i == 5 { assert IsLowerWord("experiment"); assert IsLowerWord("experimental"); assert IsLowerWord("setup"); }
    else if i == 6 { assert IsLowerWord("results"); assert IsLowerWord("findings"); assert IsLowerWord("analysis"); }
    else { assert i == 7; assert IsLowerWord("discussion"); assert IsLowerWord("observations"); }
  }

  lemma LateAlternativesAreLowerWords(i: nat, j: nat)
    requires 8 <= i < 11 && j < |SectionPatterns[i]|
    ensures AllLowerWords(SectionPatterns[i][j])
  {
    if i == 8 { assert IsLowerWord("conclusion"); assert IsLowerWord("summary"); assert IsLowerWord("closing"); assert IsLowerWord("remarks"); }
    else if i == 9 { assert IsLowerWord("future"); assert IsLowerWord("work"); assert IsLowerWord("recommendations"); }
    else { assert i == 10; assert IsLowerWord("references"); assert IsLowerWord("bibliography"); assert IsLowerWord("works"); assert IsLowerWord("cited"); }
  }

  /**
   * The patterns are whole-line tests: a candidate is a heading exactly when
   * its whitespace-separated words are one of the heading phrases.
   */
  lemma HeadingCandidateIff(c: string)
    ensures IsHeadingCandidate(c) <==> SplitWords(c) in HeadingPhrases
  {
    PatternsArePhrases();
    PatternWordsAreLowerWords();
    if IsHeadingCandidate(c) {
      var i, j :| 0 <= i < |SectionPatterns| && 0 <= j < |SectionPatterns[i]| &&
        MatchAlternative(c, SectionPatterns[i][j]);
      MatchAlternativeIff(c, SectionPatterns[i][j]);
    }
    if SplitWords(c) in HeadingPhrases {
      var i, j :| 0 <= i < |SectionPatterns| && 0 <= j < |SectionPatterns[i]| &&
        SectionPatterns[i][j] == SplitWords(c);
      MatchAlternativeIff(c, SectionPatterns[i][j]);
    }
  }

  /** A text is a heading exactly when its candidate's words form a heading phrase. */
  lemma DetectHeadingIff(text: string)
    ensures DetectHeading(text).Some? <==> text != "" && SplitWords(Candidate(text)) in HeadingPhrases
  {
    HeadingCandidateIff(Candidate(text));
  }

  // ---------------------------------------------------------------- the returned name

  /** `lstrip()` of a text is its `strip()` followed by the trailing whitespace. */
  lemma LStripIsStripPlusSpace(s: string)
    ensures |Strip(s)| <= |LStrip(s)|
    ensures LStrip(s) == Strip(s) + LStrip(s)[|Strip(s)|..]
    ensures AllSpace(LStrip(s)[|Strip(s)|..])
  {
    RStripPlusSpace(LStrip(s));
  }

  lemma RStripPlusSpace(l: string)
    ensures |RStrip(l)| <= |l|
    ensures l == RStrip(l) + l[|RStrip(l)|..]
    ensures AllSpace(l[|RStrip(l)|..])
  {
    var k := |RStrip(l)|;
    var sp := l[k..];
    forall i | 0 <= i < |sp| ensures IsSpace(sp[i]) {
      assert sp[i] == l[k + i];
    }
    assert l == l[..k] + sp;
  }

  lemma StripOfLStrip(s: string)
    ensures Strip(LStrip(s)) == Strip(s)
  {
    LStripIdempotent(s);
  }

  lemma SuffixOfAppend(l: string, p: string, k: nat)
    requires k <= |l|
    ensures (l + p)[k..] == l[k..] + p
  {
  }

  /** Blank text has no words, so it is no heading phrase. */
  lemma EmptyIsNoPhrase()
    ensures [] !in HeadingPhrases
  {
  }

  /** Only '.' lower-cases to '.', and only ')' to ')'. */
  lemma LowerCharPunctuation(c: char)
    ensures LowerChar(c) == '.' <==> c == '.'
    ensures LowerChar(c) == ')' <==> c == ')'
  {
  }

  /** The original text, left-stripped and lower-cased, is the stripped lower-cased line plus whitespace. */
  lemma LowerLStripText(text: string) returns (sp: string)
    ensures AllSpace(sp)
    ensures Lower(LStrip(text)) == Strip(Lower(text)) + sp
  {
    LStripIsStripPlusSpace(Lower(text));
    sp := LStrip(Lower(text))[|Strip(Lower(text))|..];
    LowerLStrip(text);
  }

  /** Lower-casing does not change where a numbering prefix ends. */
  lemma NumberingEndLower(a: string)
    ensures NumberingEnd(Lower(a)) == NumberingEnd(a)
  {
    DigitRunLower(a);
    var d := DigitRun(a);
    if 0 < d < |a| {
      assert Lower(a)[d] == LowerChar(a[d]);
      LowerCharPunctuation(a[d]);
    }
  }

  /** What follows a numbering prefix does not change where it ends. */
  lemma NumberingEndAppend(l: string, p: string)
    requires NumberingEnd(l).Some?
    ensures NumberingEnd(l + p) == NumberingEnd(l)
  {
    DigitRunPrefix(l, p);
    assert (l + p)[DigitRun(l)] == l[DigitRun(l)];
  }

  /** Text that starts with anything but a digit carries no numbering prefix. */
  lemma NumberingEndNonDigit(l: string, p: string)
    requires l != "" && !IsDigit(l[0])
    ensures NumberingEnd(l + p) == None
  {
    assert (l + p)[0] == l[0];
  }

  /**
   * When the lower-cased line carries a numbering prefix, the original text
   * carries the same prefix, and what follows it lower-cases to what follows
   * the prefix in the line, up to trailing whitespace.
   */
  lemma NumberedPrefix(text: string) returns (x: string, sp: string)
    requires NumberedRest(Strip(Lower(text))).Some?
    ensures AllSpace(sp)
    ensures NumberedRest(Strip(Lower(text))).value == LStrip(x)
    ensures Lower(StripNumbering(text)) == LStrip(x + sp)
  {
    var l := Strip(Lower(text));
    StripIsStripped(Lower(text));
    StrippedFixpoint(l);
    assert NumberingEnd(l).Some?;
    var k := NumberingEnd(l).value;
    sp := LowerLStripText(text);
    var a := LStrip(text);
    NumberingEndLower(a);
    NumberingEndAppend(l, sp);
    assert NumberingEnd(a) == Some(k);
    x := l[k..];
    SuffixOfAppend(l, sp, k);
    LowerSuffix(a, k);
    LowerLStrip(a[k..]);
    calc {
      Lower(StripNumbering(text));
      Lower(LStrip(a[k..]));
      LStrip(Lower(a[k..]));
      LStrip(Lower(a)[k..]);
      LStrip((l + sp)[k..]);
      LStrip(x + sp);
    }
  }

  /**
   * When the lower-cased line carries a numbering prefix, removing the prefix
   * from the original text and lower-casing gives the candidate.
   */
  lemma NumberedName(text: string, g: string)
    requires NumberedRest(Strip(Lower(text))) == Some(g)
    ensures Lower(Strip(StripNumbering(text))) == Strip(g)
  {
    var x, sp := NumberedPrefix(text);
    LowerStrip(StripNumbering(text));
    StripOfLStrip(x + sp);
    StripIgnoresTrailingSpace(x, sp);
    StripOfLStrip(x);
  }

  /** The first character of a text is the first character of its first word. */
  lemma FirstWordStartsText(l: string)
    requires l != "" && !IsSpace(l[0])
    ensures SplitWords(l) != [] && SplitWords(l)[0] != "" && SplitWords(l)[0][0] == l[0]
  {
    assert LStrip(l) == l;
    var n := WordLength(l);
    assert n > 0;
  }

  /** Every heading phrase starts with a lower-case letter. */
  lemma PhraseStartsLower(p: seq<string>)
    requires p in HeadingPhrases
    ensures p != [] && p[0] != "" && IsLower(p[0][0])
  {
    PatternsArePhrases();
    PatternWordsAreLowerWords();
    var i, j :| 0 <= i < |SectionPatterns| && 0 <= j < |SectionPatterns[i]| && SectionPatterns[i][j] == p;
    assert AllLowerWords(p);
    assert IsLowerWord(p[0]);
  }

  /** A heading that carries no numbering prefix is not changed by the prefix removal. */
  lemma UnnumberedName(text: string)
    requires IsHeadingCandidate(Strip(Lower(text)))
    ensures StripNumbering(text) == text
    ensures Lower(Strip(text)) == Strip(Lower(text))
  {
    var L := Lower(text);
    var l := Strip(L);
    HeadingCandidateIff(l);
    StripIsStripped(L);
    EmptyIsNoPhrase();
    FirstWordStartsText(l);
    PhraseStartsLower(SplitWords(l));
    var sp := LowerLStripText(text);
    var a := LStrip(text);
    NumberingEndLower(a);
    NumberingEndNonDigit(l, sp);
    LowerStrip(text);
  }

  /**
   * The name `_detect_heading` returns is the matched candidate, title-cased:
   * lower-casing it gives back the candidate, and it is already in title case.
   */
  lemma HeadingNameIsCandidate(text: string)
    ensures DetectHeading(text).Some? ==>
      var h := DetectHeading(text).value;
      && Lower(h) == Candidate(text)
      && h == Title(Candidate(text))
      && Title(h) == h
      && SplitWords(Lower(h)) in HeadingPhrases
  {
    if DetectHeading(text).Some? {
      var h := DetectHeading(text).value;
      var n := Strip(StripNumbering(text));
      assert h == Title(n);
      match NumberedRest(Strip(Lower(text))) {
        case Some(g) => NumberedName(text, g);
        case None => UnnumberedName(text);
      }
      LowerTitle(n);
      TitleIgnoresCase(n);
      TitleIdempotent(n);
      HeadingCandidateIff(Candidate(text));
    }
  }

  /**
   * `_detect_heading` in terms of the heading phrases alone: it answers
   * exactly for non-empty text whose candidate's words form a phrase, and
   * the answer is the candidate title-cased, never the empty string.
   */
  lemma DetectHeadingSpec(text: string)
    ensures DetectHeading(text).Some? <==> text != "" && SplitWords(Candidate(text)) in HeadingPhrases
    ensures DetectHeading(text).Some? ==>
      var h := DetectHeading(text).value;
      h != "" && Lower(h) == Candidate(text) && h == Title(Candidate(text))
  {
    DetectHeadingIff(text);
    HeadingNameIsCandidate(text);
    if DetectHeading(text).Some? {
      EmptyIsNoPhrase();
      SplitWordsEmptyIff(Candidate(text));
      assert Candidate(text) != "";
    }
  }

  // ---------------------------------------------------------------- examples

  lemma IntroductionWord()
    ensures IsLowerWord("introduction")
    ensures SplitWords("introduction") == ["introduction"]
  {
    assert IsLowerWord("introduction");
    assert "introduction" + "" == "introduction";
    SplitWordsFirst("introduction", "");
    assert SplitWords("") == [];
  }

  lemma IntroductionTitle()
    ensures Title("introduction") == "Introduction"
  {
    IntroductionWord();
    TitleOfLowerWord("introduction");
    CapitalIntroduction();
  }

  lemma CapitalIntroduction()
    ensures [UpperChar("introduction"[0])] + "introduction"[1..] == "Introduction"
  {
    assert UpperChar('i') == 'I';
  }

  lemma IntroductionCandidate()
    ensures Candidate("1. Introduction") == "introduction"
  {
    LowerNumberedIntroduction();
    StripNumberedIntroduction();
    NumberedRestIntroduction();
    IntroductionStripped();
    CandidateOfNumbered("1. Introduction", "1. introduction", "introduction");
  }

  lemma IntroductionStripped()
    ensures Strip("introduction") == "introduction"
  {
    var s := "introduction";
    assert s[0] == 'i' && s[|s| - 1] == 'n';
    StrippedFixpoint(s);
  }

  /** The candidate of a numbered line is the stripped regex group. */
  lemma CandidateOfNumbered(text: string, l: string, g: string)
    requires Strip(Lower(text)) == l && NumberedRest(l) == Some(g)
    ensures Candidate(text) == Strip(g)
  {
  }

  lemma LowerNumberedIntroduction()
    ensures Lower("1. Introduction") == "1. introduction"
  {
  }

  lemma StripNumberedIntroduction()
    ensures Strip("1. introduction") == "1. introduction"
  {
    StrippedFixpoint("1. introduction");
  }

  lemma NumberedRestIntroduction()
    ensures NumberedRest("1. introduction") == Some("introduction")
  {
    StrippedFixpoint("1. introduction");
    NumberingEndIntroduction();
    RestIntroduction();
  }

  lemma NumberingEndIntroduction()
    ensures NumberingEnd("1. introduction") == Some(2)
  {
    assert DigitRun("1. introduction") == 1;
  }

  lemma RestIntroduction()
    ensures LStrip("1. introduction"[2..]) == "introduction"
    ensures '\n' !in "introduction"
  {
    IntroAfterNumber();
    LStripIntro();
    IntroductionWord();
  }

  lemma IntroAfterNumber()
    ensures "1. introduction"[2..] == " introduction"
  {
    DropTwo("1.", " introduction", "1. introduction");
  }

  lemma LStripIntro()
    ensures LStrip(" introduction") == "introduction"
  {
    var r := "introduction";
    assert " " + r == " introduction";
    LStripSkips(" ", r);
    assert !IsSpace(r[0]);
    assert LStrip(r) == r;
  }

  lemma DropTwo(a: string, b: string, s: string)
    requires |a| == 2 && s == a + b
    ensures s[2..] == b
  {
  }

  lemma IntroductionPhrase()
    ensures ["introduction"] in HeadingPhrases
  {
  }

  /** A one-word text not starting with a digit is its own candidate, lower-cased. */
  lemma CandidateOfWord(w: string, l: string)
    requires IsWord(w) && l == Lower(w) && !IsDigit(l[0])
    ensures IsWord(l) && Candidate(w) == l
  {
    forall i | 0 <= i < |l| ensures !IsSpace(l[i]) {
      LowerCharSpace(w[i]);
    }
    StrippedFixpoint(l);
    assert NumberingEnd(l) == None;
  }

  /** A numbered heading loses its numbering and keeps the rest of its text. */
  lemma NumberedHeadingExample()
    ensures DetectHeading("1. Introduction") == Some("Introduction")
  {
    var text := "1. Introduction";
    IntroductionCandidate();
    IntroductionWord();
    IntroductionPhrase();
    HeadingCandidateIff("introduction");
    HeadingNameIsCandidate(text);
    IntroductionTitle();
  }

  /** Blank text is never a heading, and a heading has at most three words: sentences are not headings. */
  lemma HeadingsAreShort(text: string)
    ensures text == "" ==> DetectHeading(text) == None
    ensures DetectHeading(text).Some? ==> 1 <= |SplitWords(Candidate(text))| <= 3
  {
    HeadingCandidateIff(Candidate(text));
    if DetectHeading(text).Some? {
      PhraseLength(SplitWords(Candidate(text)));
    }
  }

  lemma PhraseLength(p: seq<string>)
    requires p in HeadingPhrases
    ensures 1 <= |p| <= 3
  {
    PatternsArePhrases();
    var i, j :| 0 <= i < |SectionPatterns| && 0 <= j < |SectionPatterns[i]| && SectionPatterns[i][j] == p;
    AlternativeLength(i, j);
  }

  lemma AlternativeLength(i: nat, j: nat)
    requires i < |SectionPatterns| && j < |SectionPatterns[i]|
    ensures 1 <= |SectionPatterns[i][j]| <= 3
  {
    AlternativeIsLowerWords(i, j);
    if i < 6 {
      assert |SectionPatterns[i]| <= 3;
    }
  }
}
