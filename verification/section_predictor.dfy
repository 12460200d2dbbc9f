/**
 * `section_predictor.py`: the rule layer in front of the trained section
 * classifier. The classifier itself (a TF-IDF vectorizer and an SVM loaded
 * from disk) is the parameter `classify`: any function from the stripped
 * text to a label.
 */
module SectionPredictor {
  import opened Options
  import opened PyStr

  const References: string := "REFERENCES"
  const Custom: string := "CUSTOM"

  /** The phrases that mark acknowledgements, declarations, certificates and the like. */
  const CustomPhrases: seq<string> := [
    "acknowledg", "acknowledgement", "acknowledgment",
    "declaration", "certificate",
    "plagiarism", "bona fide", "supervisor certificate"
  ]

  /** `re.match(r"^\[\d+\]", s)`: an opening bracket, at least one digit, a closing bracket. */
  predicate BracketNumber(s: string) {
    |s| >= 1 && s[0] == '[' && 0 < DigitRun(s[1..]) < |s| - 1 && s[1 + DigitRun(s[1..])] == ']'
  }

  /** A DOI link or a web address anywhere in the (lower-cased) text. */
  predicate HasLink(low: string) {
    Contains(low, "doi.org") || Contains(low, "http://") || Contains(low, "https://")
  }

  predicate HasCustomPhrase(low: string) {
    exists i | 0 <= i < |CustomPhrases| :: Contains(low, CustomPhrases[i])
  }

  /** `text or ""` */
  function OrEmpty(text: Option<string>): string {
    text.GetOr("")
  }

  /**
   * `_rule_based_label` with `text or ""` used for both tests: a numbered
   * reference or a link is REFERENCES, a custom phrase is CUSTOM, and
   * otherwise no rule applies.
   */
  function RuleBasedLabel(text: Option<string>): (r: Option<string>)
    ensures r.Some? ==> r.value == References || r.value == Custom
    ensures var t := Strip(OrEmpty(text)); var low := Lower(t);
      && (r == Some(References) <==> BracketNumber(t) || HasLink(low))
      && (r == Some(Custom) <==> !BracketNumber(t) && !HasLink(low) && HasCustomPhrase(low))
      && (r == None <==> !BracketNumber(t) && !HasLink(low) && !HasCustomPhrase(low))
  {
    var t := Strip(OrEmpty(text));
    LowerStrip(OrEmpty(text));
    var low := Lower(t);
    if BracketNumber(t) then Some(References)
    else if HasLink(low) then Some(References)
    else if HasCustomPhrase(low) then Some(Custom)
    else None
  }

  /** What the function as written does: it may raise instead of returning. */
  datatype Outcome = Raises | Returns(result: Option<string>)

  /**
   * `_rule_based_label` as written: `low` is computed from `text or ""`,
   * but the bracket test calls `text.strip()` on the argument itself, which
   * raises `AttributeError` when it is `None`.
   */
  function RuleBasedLabelAsWritten(text: Option<string>): (r: Outcome)
    ensures r == Raises <==> text == None
  {
    match text
    case None => Raises
    case Some(s) => Returns(RuleBasedLabel(Some(s)))
  }

  /** `None` makes the function as written raise where `text or ""` was evidently meant to give "no rule". */
  lemma NoneRaises()
    ensures RuleBasedLabelAsWritten(None) == Raises
    ensures RuleBasedLabel(None) == None
  {
    assert Strip("") == "";
    assert Lower("") == "";
    assert !Contains("", "doi.org") && !Contains("", "http://") && !Contains("", "https://");
    forall i | 0 <= i < |CustomPhrases| ensures !Contains("", CustomPhrases[i]) {
      assert |CustomPhrases[i]| > 0;
    }
  }

  /** On every string argument the two agree. */
  lemma AsWrittenAgrees(s: string)
    ensures RuleBasedLabelAsWritten(Some(s)) == Returns(RuleBasedLabel(Some(s)))
  {
  }

  /**
   * `predict_section`: stripped text shorter than 20 characters is CUSTOM;
   * otherwise the rule's label if one applies, else the classifier's.
   */
  function PredictSection(text: Option<string>, classify: string -> string): (r: string)
    ensures var t := Strip(OrEmpty(text));
      && (|t| < 20 ==> r == Custom)
      && (|t| >= 20 && RuleBasedLabel(Some(t)).Some? ==> r == RuleBasedLabel(Some(t)).value)
      && (|t| >= 20 && RuleBasedLabel(Some(t)).None? ==> r == classify(t))
  {
    var t := Strip(OrEmpty(text));
    if |t| < 20 then Custom
    else match RuleBasedLabel(Some(t))
      case Some(l) => l
      case None => classify(t)
  }

  // ---------------------------------------------------------------- the cascade

  /** Short input is CUSTOM whatever the rules or the classifier would say. */
  lemma ShortIsCustom(text: Option<string>, classify: string -> string)
    requires |Strip(OrEmpty(text))| < 20
    ensures PredictSection(text, classify) == Custom
  {
  }

  /** A numbered reference such as "[12] ..." of at least 20 characters is REFERENCES. */
  lemma BracketIsReferences(text: Option<string>, classify: string -> string)
    requires |Strip(OrEmpty(text))| >= 20 && BracketNumber(Strip(OrEmpty(text)))
    ensures PredictSection(text, classify) == References
  {
    StripIdempotent(OrEmpty(text));
  }

  /** A DOI or URL, in any case, makes long text REFERENCES. */
  lemma LinkIsReferences(text: Option<string>, classify: string -> string)
    requires |Strip(OrEmpty(text))| >= 20 && HasLink(Lower(Strip(OrEmpty(text))))
    ensures PredictSection(text, classify) == References
  {
    StripIdempotent(OrEmpty(text));
  }

  /**
   * The reference rules come first: a long text with a link is REFERENCES
   * even when it also contains an acknowledgement phrase.
   */
  lemma ReferencesBeforeCustom(text: Option<string>, classify: string -> string)
    requires |Strip(OrEmpty(text))| >= 20
    requires HasLink(Lower(Strip(OrEmpty(text)))) && HasCustomPhrase(Lower(Strip(OrEmpty(text))))
    ensures PredictSection(text, classify) == References
  {
    LinkIsReferences(text, classify);
  }

  /** A custom phrase without a reference marker makes long text CUSTOM. */
  lemma PhraseIsCustom(text: Option<string>, classify: string -> string)
    requires |Strip(OrEmpty(text))| >= 20
    requires var t := Strip(OrEmpty(text)); !BracketNumber(t) && !HasLink(Lower(t)) && HasCustomPhrase(Lower(t))
    ensures PredictSection(text, classify) == Custom
  {
    StripIdempotent(OrEmpty(text));
  }

  /**
   * The classifier decides exactly when the text is long enough and no rule
   * applies: with a classifier that never answers CUSTOM or REFERENCES, its
   * answer comes back unchanged in that case and never otherwise.
   */
  lemma ClassifierDecidesIff(text: Option<string>, classify: string -> string)
    requires forall s :: classify(s) != Custom && classify(s) != References
    ensures var t := Strip(OrEmpty(text));
      PredictSection(text, classify) == classify(t) <==> |t| >= 20 && RuleBasedLabel(Some(t)) == None
  {
    var t := Strip(OrEmpty(text));
    assert classify(t) != Custom && classify(t) != References;
    assert Custom != References;
  }

  /** The result is CUSTOM, REFERENCES or the classifier's label. */
  lemma PredictionRange(text: Option<string>, classify: string -> string)
    ensures var r := PredictSection(text, classify);
      r == Custom || r == References || r == classify(Strip(OrEmpty(text)))
  {
  }

  // ---------------------------------------------------------------- an example

  /** "[7] Smith et al., 2020, https://doi.org/10.1000/xyz", written in pieces. */
  const SmithReference: string := "[7]" + " " + "Smith et al., 2020, https://doi.org/10.1000/xyz"

  lemma SmithIsStripped()
    ensures Strip(SmithReference) == SmithReference
  {
    var s := SmithReference;
    assert s[0] == '[' && s[|s| - 1] == 'z';
    StrippedFixpoint(s);
  }

  lemma SmithBracket()
    ensures BracketNumber(SmithReference)
  {
    var s := SmithReference;
    var y := "]" + " " + "Smith et al., 2020, https://doi.org/10.1000/xyz";
    assert s[1..] == "7" + y;
    assert y[0] == ']';
    DigitRunOfDigits("7", y);
    assert s[2] == ']';
  }

  /** "[7] Smith et al., 2020, https://doi.org/..." is a reference whatever the classifier says. */
  lemma SmithExample(s: string, classify: string -> string)
    requires s == SmithReference
    ensures PredictSection(Some(s), classify) == References
  {
    SmithFacts(s);
    StrippedReference(s, classify);
  }

  lemma SmithFacts(s: string)
    requires s == SmithReference
    ensures Strip(s) == s && |s| >= 20 && BracketNumber(s)
  {
    SmithIsStripped();
    SmithBracket();
  }

  lemma StrippedReference(t: string, classify: string -> string)
    requires Strip(t) == t && |t| >= 20 && BracketNumber(t)
    ensures PredictSection(Some(t), classify) == References
  {
    BracketIsReferences(Some(t), classify);
  }
}
