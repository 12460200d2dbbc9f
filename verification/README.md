# Docmaster document core in Dafny

This is a model of the document core of Docmaster, a tool that turns research-paper
drafts into formatted DOCX/PDF output, and proofs about it. The model covers the following:

- **`DocumentHandler`** (`mainfolder/document_handler.py`):
  - heading detection (`_detect_heading`: the numbering prefix, the eleven
    anchored `SECTION_PATTERNS` and the title-cased name);
  - figure-caption detection (`_detect_caption`, `FIGURE_CAPTION_PATTERN`);
  - virtual-figure detection (`detect_virtual_image`);
  - the plain-text parser (`parse_text`);
  - the body walk of the DOCX parser (`parse_docx`, lines 125-170);
  - the final pruning (`_cleanup`);
  - the text dump (`get_structured_text`).
- **The rule layer of the section classifier** (`mainfolder/section_predictor.py`):
  `_rule_based_label` and `predict_section`. The trained classifier is a
  parameter `classify: string -> string`.
- **The pure parts of `ExportService`** (`mainfolder/export_service.py`):
  - the style presets;
  - the style, author and institution defaults of `__init__`;
  - the greedy word wrap `_wrap`.

## How it is organised

The modules follow the program:

| module | file | what it holds |
|---|---|---|
| `Options` | `options.dfy` | `Option<T>` |
| `PyStr` | `py_str.dfy` | Python's `str` operations over ASCII: `isspace`, `lower`, `strip`/`lstrip`/`rstrip`, `title`, `split()`, `splitlines()`, `join`, `in` |
| `ContentModel` | `content_model.dfy` | The elements, the model `Doc(sections, order)`, its two mutations `Enter` and `Append`, `Cleanup`, first-encounter order, and the per-section view `Group` of a log of (section, element) pairs |
| `Headings` | `headings.dfy` | `_detect_heading`, with each regular expression written as a small matcher |
| `Captions` | `captions.dfy` | `_detect_caption` and `detect_virtual_image` |
| `TextParser` | `text_parser.dfy` | `parse_text`: a left fold over line kinds, related to an independent description by maximal runs of body lines |
| `DocxParser` | `docx_parser.dfy` | The `parse_docx` loop: a left fold over classified blocks, related to an independent log of what each block adds |
| `Rendering` | `rendering.dfy` | `get_structured_text` |
| `SectionPredictor` | `section_predictor.dfy` | `_rule_based_label` and `predict_section` |
| `ExportService` | `export_service.dfy` | Presets, `__init__` and `_wrap` |

Python's dictionaries keep insertion order. The model's `sections` is an unordered map, and the order of `sections` and
`detected_order` is the explicit sequence `order`. For both parsers, the well-formedness
predicate `WellFormed` says that `order` lists every key of `sections` exactly once.

### Where the code and its documentation differ (the model follows the code)

- **Captions.** The docstring of `_detect_caption` and the comment on `FIGURE_CAPTION_PATTERN` give
  "Fig. 2 - ..." as a caption, but `^(fig(ure)?\s*\d+[:.\-)]\s+).*` does not match it. After
  "fig" the pattern allows only whitespace and digits, so the "." already fails. The digits must
  also be followed directly by the punctuation mark. `Captions.FigDotIsNoCaption` and
  `Captions.DottedFigureExample` state what the code does.
- **Labels.** `predict_section` returns the labels "CUSTOM" and "REFERENCES" in upper case, and
  it returns the classifier's label unchanged. No title-casing happens in this code.

## Model

| member | source | states |
|---|---|---|
| Headings.MatchAlternativeIff | mainfolder/document_handler.py:240-241 | An anchored pattern alternative `^\s*(w1\s+w2...)\s*$` accepts a text exactly when `split()` of the text yields those words |
| Headings.HeadingCandidateIff | mainfolder/document_handler.py:32-44 | Some `SECTION_PATTERNS` entry matches a candidate exactly when the candidate's words form one of the 22 heading phrases |
| Headings.PatternsArePhrases | mainfolder/document_handler.py:32-44 | The alternatives of the eleven patterns are exactly the heading phrases: every alternative is one, and every phrase is an alternative |
| Headings.DetectHeadingIff | mainfolder/document_handler.py:228-244 | `_detect_heading` returns a name exactly when the text is non-empty and its lower-cased, stripped, numbering-free candidate is a heading phrase |
| Headings.HeadingNameIsCandidate | mainfolder/document_handler.py:234-243 | The returned name is the title-cased candidate: lower-casing it gives back the candidate that matched, it is its own title case, and its words are a heading phrase |
| Headings.NumberedName | mainfolder/document_handler.py:237-243 | For a numbered line, the name built from the original text (numbering removed, stripped) lower-cases to the regex group the patterns were tried on |
| Headings.NumberedHeadingExample | mainfolder/document_handler.py:230 | "1. Introduction" is detected as "Introduction" |
| Headings.DetectHeadingSpec | mainfolder/document_handler.py:228-244 | `_detect_heading` gives a name exactly when the text is non-empty and its candidate's words form a heading phrase; the name is non-empty, lower-cases to the candidate and is the candidate's title case |
| Headings.CandidateOfWord | mainfolder/document_handler.py:235-239 | A one-word text that does not start with a digit has its lower-case form as candidate |
| Headings.HeadingsAreShort | mainfolder/document_handler.py:232-244 | Empty text is no heading, and a heading candidate has one to three words, so a sentence that merely contains a heading word is not a heading |
| Captions.DetectCaption | mainfolder/document_handler.py:214-223 | The caption is the previous paragraph when it matches, else the current paragraph when it matches, else none; a returned caption matches the pattern and is one of the two inputs |
| Captions.CaptionIgnoresCase | mainfolder/document_handler.py:47-49 | The caption pattern is case-insensitive: a text and its lower-case form are captions alike |
| Captions.CaptionForm | mainfolder/document_handler.py:47-49 | "figure" or "fig" in any case, optional whitespace, a number, one of `: . - )`, and at least one whitespace character make a caption whatever follows |
| Captions.CaptionIff | mainfolder/document_handler.py:47-49 | A text is a caption exactly when it comes apart as keyword ("figure" or "fig", any case), whitespace, a non-empty digit run, one of `: . - )`, a non-empty whitespace run, and anything |
| Captions.FigDotIsNoCaption | mainfolder/document_handler.py:46-49 | No text that starts with "fig." in any case is a caption |
| Captions.DottedFigureExample | mainfolder/document_handler.py:214-223 | "Fig. 2 - Growth chart" as the only candidate gives no caption |
| Captions.PreviousCaptionExample | mainfolder/document_handler.py:219-220 | With "Figure 1: Sample output" as the previous text, it is the caption whatever the current text is |
| Captions.DetectVirtualImage | mainfolder/document_handler.py:256-276 | A virtual image exists exactly when the text is non-empty and its lower-case form contains one of the six keywords; it has no path, the text as caption, empty alternative text and the virtual flag |
| Captions.VirtualImageInContext | mainfolder/document_handler.py:265-268 | The keyword test is a substring test: surrounding a matching text with anything still matches |
| Captions.FigureCaptionIsVirtual | mainfolder/document_handler.py:47-49 | A "Figure n: ..." caption also makes a virtual image |
| ContentModel.Enter | mainfolder/document_handler.py:94-96 | Entering a section keeps every section's content, adds the name to the keys, appends it to `order` only when new, and preserves well-formedness |
| ContentModel.Append | mainfolder/document_handler.py:78-81 | Appending an element changes only the named section, by that one element at the end; keys and order stay |
| ContentModel.Cleanup | mainfolder/document_handler.py:246-251 | Exactly the non-empty sections survive, with unchanged content; `order` is filtered to them; a well-formed model becomes a finalized one (no empty section) |
| ContentModel.CleanupIdempotent | mainfolder/document_handler.py:246-251 | Cleaning up twice is cleaning up once |
| ContentModel.SurvivorsKeepOrder | mainfolder/document_handler.py:251 | Filtering `detected_order` keeps the relative order of the names that remain |
| ContentModel.FirstEncounterSpec | mainfolder/document_handler.py:94-96 | Appending each unseen name lists every name once, and in the order of its first occurrence |
| ContentModel.CleanupOfGrouped | mainfolder/document_handler.py:250 | When every section is exactly its share of a log, the surviving sections are those the log sends something to, each with that share |
| TextParser.Kind | mainfolder/document_handler.py:85-98 | A line is blank exactly when its `strip()` is empty; it is a heading exactly when it is not blank and the words of its candidate (lower-cased, stripped, numbering removed) form a heading phrase, and then the name lower-cases to that candidate and is its title case; otherwise it is body text, the stripped line |
| TextParser.ExampleLineKinds | mainfolder/document_handler.py:85-98 | "Abstract" and "1. Introduction" are heading lines named "Abstract" and "Introduction", "" is blank, and "One", "two.", "Three." are body lines |
| TextParser.WordLineKind | mainfolder/document_handler.py:85-98 | A one-word line not starting with a digit is a heading exactly when its lower-case form is a one-word heading phrase, and is then named by its title case; otherwise it is the body line itself |
| TextParser.Flush | mainfolder/document_handler.py:73-82 | `flush()` adds one text element, the buffered lines joined by single spaces, to the current section when the buffer is non-empty, and empties the buffer |
| TextParser.WalkContent | mainfolder/document_handler.py:84-100 | The loop plus the final `flush()` adds to each section exactly its share of the paragraphs still pending (buffer, then maximal runs of body lines) |
| TextParser.WalkOrder | mainfolder/document_handler.py:90-96 | The loop extends `detected_order` by the heading names not yet seen, in first-encounter order |
| TextParser.ParseLinesSpec | mainfolder/document_handler.py:59-102 | After `parse_text`, the sections are exactly those that receive a paragraph run; each holds its paragraphs in input order; `order` is the first-encounter order of "Uncategorized" and the heading names, filtered to the survivors |
| TextParser.RunsAreParagraphs | mainfolder/document_handler.py:76-81 | Every stored element is a non-empty text paragraph; heading lines never become content |
| TextParser.BlankTextIsEmpty | mainfolder/document_handler.py:64-69 | Empty or whitespace-only text parses to a model with no sections; even "Uncategorized" is cleaned away |
| TextParser.NoBodyIsEmpty | mainfolder/document_handler.py:84-101 | Lines without body text (only blanks and headings) parse to the empty model |
| TextParser.RepeatedHeading | mainfolder/document_handler.py:92-96 | A heading already seen switches back to its section without adding a section or changing the order |
| TextParser.ParseLinesExample | mainfolder/document_handler.py:59-102 | The lines "Abstract", "One", "two.", "", "1. Introduction", "Three." give the sections Abstract (one paragraph "One two.") and Introduction (one paragraph "Three."), in that order, and nothing else |
| TextParser.ParseTextExample | mainfolder/document_handler.py:59-102 | The same six lines written as one text, each ended by a newline, give the same two sections in the same order |
| DocxParser.HeadingOf | mainfolder/document_handler.py:133 | A stripped paragraph text is a heading exactly when it is non-empty and the words of its candidate form a heading phrase; the name then lower-cases to the candidate and is its title case |
| DocxParser.Classify | mainfolder/document_handler.py:128-160 | A block is a table case exactly when it is a table; a paragraph is a heading exactly when its stripped text is non-empty and its candidate's words form a heading phrase (the name lower-casing to the candidate); it is an image paragraph exactly when it is not a heading and has pictures, which it keeps in order; a plain paragraph has no pictures |
| DocxParser.StripCells | mainfolder/document_handler.py:162-164 | A table's rows keep their shape and every cell is stripped |
| DocxParser.Step | mainfolder/document_handler.py:125-168 | One block moves the current section to a heading's name, sets the last text for every paragraph but not for a table, and appends a new heading to `order` |
| DocxParser.HeadingBlock | mainfolder/document_handler.py:133-140 | A heading paragraph switches section, records its stripped text as the last text, and stores nothing |
| DocxParser.ImageBlock | mainfolder/document_handler.py:143-149 | A paragraph with k pictures adds k image elements, in order, to the current section, all with the caption chosen from the last text and this paragraph's text; its own text is not stored |
| DocxParser.TextBlock | mainfolder/document_handler.py:152-157 | A plain paragraph adds its stripped text when non-empty, and becomes the last text in any case |
| DocxParser.EmptyParagraph | mainfolder/document_handler.py:152-157 | A blank paragraph stores nothing but resets the last text to "" |
| DocxParser.TableBlockStep | mainfolder/document_handler.py:160-168 | A table adds its stripped rows to the current section and leaves the section and the last text alone |
| DocxParser.StepContent | mainfolder/document_handler.py:125-168 | Each block adds exactly its own elements, all to the section that was current before it |
| DocxParser.WalkContent | mainfolder/document_handler.py:125-168 | The loop adds to every section exactly its share of the block log |
| DocxParser.WalkOrder | mainfolder/document_handler.py:134-138 | The loop extends `detected_order` by the unseen heading names in first-encounter order |
| DocxParser.WalkLastText | mainfolder/document_handler.py:139-157 | After the loop, `_last_text` is the stripped text of the last paragraph; tables never set it |
| DocxParser.LogSplit | mainfolder/document_handler.py:125-168 | The log of the blocks splits at any position, the rest continuing from the section and last text reached there |
| DocxParser.ParseDocxSpec | mainfolder/document_handler.py:112-170 | After `parse_docx`, the sections are exactly those some block contributes to, each with its contributions in document order; `order` is the first-encounter order of "Uncategorized" and the headings, filtered to the survivors |
| DocxParser.ImageCaptions | mainfolder/document_handler.py:143-148 | The pictures of the i-th paragraph sit in the log right after everything before it, in the last heading's section, captioned from the last paragraph before it (tables skipped) and its own text |
| DocxParser.CaptionAcrossTable | mainfolder/document_handler.py:146 | For the classified run "Figure 1: Sample output" as text, then a table, then a picture, the log gives the picture that caption: the table does not reset the last paragraph text |
| DocxParser.CaptionBlockKinds | mainfolder/document_handler.py:128-164 | The raw blocks — a paragraph "Figure 1: Sample output" with no pictures, a one-row table, an empty paragraph holding one picture — classify to a plain paragraph, a table and a picture paragraph, the caption text not being a heading |
| DocxParser.ParseCaptionBlocks | mainfolder/document_handler.py:125-171 | Parsing those raw blocks gives the one section "Uncategorized" holding the text, the table and the picture captioned "Figure 1: Sample output", in that order |
| Rendering.ElementLines | mainfolder/document_handler.py:283-295 | A text element renders as exactly its content; an image as one line starting "[IMAGE] path="; a table as two more lines than it has rows, "[TABLE]" first, "[/TABLE]" last, and line i + 1 the i-th row joined by " \| " |
| Rendering.RowLines | mainfolder/document_handler.py:288-289 | Each row becomes its cells joined by a space, a vertical bar and a space |
| Rendering.BlockPositions | mainfolder/document_handler.py:281-296 | The k-th section of `order` occupies its own block of lines: its header, its elements' lines, and an empty line |
| Rendering.BlocksSize | mainfolder/document_handler.py:281-296 | The dump has as many lines as its blocks together |
| Rendering.ReadBack | mainfolder/document_handler.py:297 | When no stored text holds a line break and the model has at least one section, `splitlines()` of the dump plus a final newline gives back its lines |
| Rendering.VirtualImageLine | mainfolder/document_handler.py:291-295 | A virtual image prints "path=None VIRTUAL=True" with its caption and empty alternative text |
| Rendering.TableLines | mainfolder/document_handler.py:286-290 | A two-row table renders as "[TABLE]", its two joined rows and "[/TABLE]" |
| Rendering.EmptyRendering | mainfolder/document_handler.py:279-297 | A model with no sections renders as the empty string |
| SectionPredictor.RuleBasedLabel | mainfolder/section_predictor.py:24-41 | REFERENCES exactly when the stripped text starts with "[digits]" or the text contains a DOI or URL marker; otherwise CUSTOM exactly when a custom phrase occurs; otherwise no label |
| SectionPredictor.RuleBasedLabelAsWritten | mainfolder/section_predictor.py:25-28 | As written, the function raises exactly when the argument is `None` |
| SectionPredictor.NoneRaises | mainfolder/section_predictor.py:25-28 | `None` raises as written, where the `text or ""` reading gives no label |
| SectionPredictor.PredictSection | mainfolder/section_predictor.py:47-67 | Stripped text under 20 characters is CUSTOM; otherwise a rule's label wins; otherwise the classifier decides on the stripped text |
| SectionPredictor.ShortIsCustom | mainfolder/section_predictor.py:54-57 | Short text is CUSTOM whatever the rules or the classifier say |
| SectionPredictor.BracketIsReferences | mainfolder/section_predictor.py:28-29 | A long text starting with "[n]" is REFERENCES |
| SectionPredictor.LinkIsReferences | mainfolder/section_predictor.py:30-31 | A long text with a DOI or URL marker, in any case, is REFERENCES |
| SectionPredictor.ReferencesBeforeCustom | mainfolder/section_predictor.py:27-39 | The reference rules are tried first: a link beats an acknowledgement phrase |
| SectionPredictor.PhraseIsCustom | mainfolder/section_predictor.py:34-39 | A custom phrase without a reference marker makes long text CUSTOM |
| SectionPredictor.ClassifierDecidesIff | mainfolder/section_predictor.py:59-67 | For a classifier that never answers CUSTOM or REFERENCES, its answer is returned exactly when the text is long enough and no rule applies |
| SectionPredictor.PredictionRange | mainfolder/section_predictor.py:47-67 | The result is CUSTOM, REFERENCES or the classifier's label for the stripped text |
| SectionPredictor.SmithExample | mainfolder/section_predictor.py:28-29 | "[7] Smith et al., 2020, https://doi.org/10.1000/xyz" is REFERENCES whatever the classifier says |
| ExportService.Preset | mainfolder/export_service.py:64 | The chosen preset, APA for an unknown name; every preset defines the seven style keys |
| ExportService.OrDefault | mainfolder/export_service.py:68-69 | `value or fallback`: a non-empty value is kept, and both `None` and "" give the fallback |
| ExportService.NewExporter | mainfolder/export_service.py:63-72 | The style has the preset's keys plus the custom ones, custom values override, and the preset supplies the rest; the author defaults to "Anonymous", the institution to "Unknown Institution"; the image width is 4.5 |
| ExportService.PlainPreset | mainfolder/export_service.py:64-66 | Without a custom style, or with an empty one, the style is exactly the preset |
| ExportService.StyleHasPresetKeys | mainfolder/export_service.py:17-66 | Every exporter's style defines at least the seven preset keys |
| ExportService.IeeeExample | mainfolder/export_service.py:27-35 | IEEE with a custom font size keeps IEEE's justified alignment and no title page, and an empty institution falls back to the default |
| ExportService.WrapKeepsWords | mainfolder/export_service.py:280-292 | `_wrap` keeps every word in order: splitting its lines again gives `text.split()` |
| ExportService.WrapFits | mainfolder/export_service.py:285-286 | Every line of two or more words is at most `width` long; only a single long word can exceed it |
| ExportService.WrapGreedy | mainfolder/export_service.py:285-289 | A new line starts only when the next word would not have fitted on the current non-empty line |
| ExportService.WrapEmptyLines | mainfolder/export_service.py:283-289 | An empty line appears exactly as the first line, and exactly when the first word is at least `width` long |
| ExportService.BlankWrapsToNothing | mainfolder/export_service.py:281-292 | Empty or whitespace-only text gives no lines |
| ExportService.EmptyFirstLine | mainfolder/export_service.py:283-289 | `_wrap("abc", 3)` gives `["", "abc"]` |
| ExportService.WrapFixedSpec | mainfolder/export_service.py:280-292 | The corrected wrap keeps the words, fits every multi-word line, is greedy, and never emits an empty line |
| ExportService.WrapFixedDropsEmptyLine | mainfolder/export_service.py:283-291 | The corrected wrap is the written one without its leading empty line |

## Left out

- Reading the DOCX file (`Document(path)`, `Paragraph`, `Table`) is not modelled. The
  body arrives as a sequence of `Block`s, each a paragraph with its text and pictures, or a table
  with its cell texts.
- Image extraction is not modelled: `_extract_all_images` and `_extract_images_from_paragraph`
  (document_handler.py:176-212), the temporary directory (118-122) and the
  files written there. These are filesystem and XML work. A picture arrives as its path (absent
  when its relationship was not saved) and its `descr` text.
- Loading the pickled vectorizer and SVM (section_predictor.py:8-18) and calling them
  (65-66) are not modelled. The classifier is the parameter `classify`.
- `export_to_docx`, `export_to_pdf` and `_add_title_page` are not modelled. They only drive
  python-docx, reportlab and PIL. Of `ExportService`, the model keeps the presets,
  `__init__` and `_wrap`.
- `main.py` is not modelled. It is the user interface and only calls into the core.
- The commented-out second versions of `document_handler.py` (from line 300) and
  `export_service.py` (from line 294) are not modelled. They are not part of the running code.
- Characters are ASCII only. `isspace`, `\s`, `\d`, `lower`, `upper` and `title` follow
  Python over ASCII; Unicode whitespace, digits and case mapping are not modelled.
- The default `width=90` of `_wrap` is not modelled as a default: `width` is an explicit
  parameter, and every property holds for any width.
- The mutable `DocumentHandler` object is not modelled. Each parse starts from a fresh model,
  as both parsers reset `sections` and `detected_order` first.
- `Rendering.ReadBack` requires that no stored text, name, path, caption or alternative text
  holds a line break, because `splitlines()` would otherwise split inside a line. It also
  requires that the model has at least one section: the dump of an empty model is "", and
  `"\n".splitlines()` is `[""]`, not the empty list of lines.

## Findings

| source | as written | input that shows it | evidently intended | confidence | as-written member | corrected member |
|---|---|---|---|---|---|---|
| mainfolder/section_predictor.py:25-28 | `low` guards against `None` with `text or ""`, but the bracket test calls `text.strip()` on the argument itself | `_rule_based_label(None)` raises `AttributeError` | the bracket test on `(text or "").strip()`, so that `None` gets no label like "" does (`predict_section` itself never passes `None`) | not executed | SectionPredictor.RuleBasedLabelAsWritten, SectionPredictor.NoneRaises | SectionPredictor.RuleBasedLabel |
| mainfolder/export_service.py:283-289 | the width test `len(line) + len(w) + 1 <= width` also applies to the first word, while `line` is still "" | `_wrap("abc", 3)` returns `["", "abc"]`, an empty first line | the first word always starts the first line, so no empty line is ever emitted | not executed | ExportService.EmptyFirstLine | ExportService.WrapFixed, ExportService.WrapFixedSpec |
