/**
 * `DocumentHandler.get_structured_text`: the plain-text dump of the model,
 * one block per section in `order`: a "=== name ===" header, one or more
 * lines per element, and an empty line; the lines joined with "\n".
 */
module Rendering {
  import opened Options
  import opened PyStr
  import opened ContentModel

  /** Python's `str()` of an optional string: the string itself, or "None". */
  function Show(o: Option<string>): string {
    match o
    case None => "None"
    case Some(s) => s
  }

  /** Python's `str()` of a bool. */
  function ShowBool(b: bool): string {
    if b then "True" else "False"
  }

  function Header(name: string): string {
    "=== " + name + " ==="
  }

  /** The lines of one element. */
  function ElementLines(e: Element): (ls: seq<string>)
    ensures |ls| == (if e.Table? then |e.rows| + 2 else 1)
    ensures e.Text? ==> ls == [e.content]
    ensures e.Table? ==> ls[0] == "[TABLE]" && ls[|ls| - 1] == "[/TABLE]"
    ensures e.Table? ==> forall i :: 0 <= i < |e.rows| ==> ls[i + 1] == Join(" | ", e.rows[i])
    ensures e.Image? ==> StartsWith(ls[0], "[IMAGE] path=")
  {
    match e
    case Text(content) => [content]
    case Table(rows) => ["[TABLE]"] + RowLines(rows) + ["[/TABLE]"]
    case Image(path, caption, alt, virtual) =>
      ["[IMAGE] path=" + Show(path) + " VIRTUAL=" + ShowBool(virtual) + " CAPTION=" + Show(caption) + " ALT=" + alt]
  }

  /** `" | ".join(row)` for every row. */
  function RowLines(rows: seq<seq<string>>): (ls: seq<string>)
    ensures |ls| == |rows|
    ensures forall i :: 0 <= i < |rows| ==> ls[i] == Join(" | ", rows[i])
  {
    seq(|rows|, i requires 0 <= i < |rows| => Join(" | ", rows[i]))
  }

  /** The lines of a list of elements, in order. */
  function ElementsLines(es: seq<Element>): seq<string>
    decreases |es|
  {
    if es == [] then [] else ElementLines(es[0]) + ElementsLines(es[1..])
  }

  /** The block of one section. */
  function SectionLines(name: string, es: seq<Element>): seq<string> {
    [Header(name)] + ElementsLines(es) + [""]
  }

  /** The blocks of the sections named in `names`, in that order. */
  function BlocksLines(d: Doc, names: seq<string>): seq<string>
    requires forall i :: 0 <= i < |names| ==> names[i] in d.sections
    decreases |names|
  {
    if names == [] then []
    else SectionLines(names[0], d.sections[names[0]]) + BlocksLines(d, names[1..])
  }

  /** The list `out` the method builds. */
  function RenderLines(d: Doc): seq<string>
    requires WellFormed(d)
  {
    BlocksLines(d, d.order)
  }

  /** `get_structured_text()` */
  function StructuredText(d: Doc): string
    requires WellFormed(d)
  {
    Join("\n", RenderLines(d))
  }

  // ---------------------------------------------------------------- where things are

  /** How many lines an element list takes. */
  function ElementsSize(es: seq<Element>): nat
    decreases |es|
  {
    if es == [] then 0 else (if es[0].Table? then |es[0].rows| + 2 else 1) + ElementsSize(es[1..])
  }

  /** How many lines the blocks of the first `k` names take. */
  function Offset(d: Doc, names: seq<string>, k: nat): nat
    requires k <= |names|
    requires forall i :: 0 <= i < |names| ==> names[i] in d.sections
    decreases k
  {
    if k == 0 then 0 else Offset(d, names, k - 1) + 2 + ElementsSize(d.sections[names[k - 1]])
  }

  lemma {:induction false} ElementsLinesSize(es: seq<Element>)
    ensures |ElementsLines(es)| == ElementsSize(es)
    decreases |es|
  {
    if es != [] {
      ElementsLinesSize(es[1..]);
    }
  }

  /** The rendering of `names` is that of a prefix followed by that of the rest. */
  lemma {:induction false} BlocksSplit(d: Doc, names: seq<string>, k: nat)
    requires forall i :: 0 <= i < |names| ==> names[i] in d.sections
    requires k <= |names|
    ensures BlocksLines(d, names) == BlocksLines(d, names[..k]) + BlocksLines(d, names[k..])
    decreases k
  {
    if k == 0 {
      EmptyPrefix(names);
    } else {
      var rest := names[1..];
      BlocksSplit(d, rest, k - 1);
      PrefixOfTail(names, k);
      var x := SectionLines(names[0], d.sections[names[0]]);
      var p := BlocksLines(d, rest[..k - 1]);
      var q := BlocksLines(d, names[k..]);
      assert BlocksLines(d, names[..k]) == x + p;
      AppendAssoc(x, p, q);
    }
  }

  lemma EmptyPrefix(names: seq<string>)
    ensures names[..0] == [] && names[0..] == names
  {
  }

  lemma PrefixOfTail(names: seq<string>, k: nat)
    requires 0 < k <= |names|
    ensures names[..k][0] == names[0] && names[..k][1..] == names[1..][..k - 1]
    ensures names[1..][k - 1..] == names[k..]
  {
  }

  /** `Offset(k)` is the number of lines the blocks of the first `k` names take. */
  lemma {:induction false} OffsetIsPrefixLength(d: Doc, names: seq<string>, k: nat)
    requires forall i :: 0 <= i < |names| ==> names[i] in d.sections
    requires k <= |names|
    ensures Offset(d, names, k) == |BlocksLines(d, names[..k])|
    decreases k
  {
    if k > 0 {
      OffsetIsPrefixLength(d, names, k - 1);
      var pre := names[..k];
      BlocksSplit(d, pre, k - 1);
      assert pre[..k - 1] == names[..k - 1];
      assert pre[k - 1..] == [names[k - 1]];
      var es := d.sections[names[k - 1]];
      ElementsLinesSize(es);
      assert BlocksLines(d, [names[k - 1]]) == SectionLines(names[k - 1], es) + BlocksLines(d, []);
    }
  }

  /**
   * The block of the `k`-th name starts at `Offset(k)` with its header,
   * holds the lines of the section's elements, and ends just before
   * `Offset(k + 1)` with an empty line.
   */
  lemma BlockPositions(d: Doc, names: seq<string>, k: nat)
    requires forall i :: 0 <= i < |names| ==> names[i] in d.sections
    requires k < |names|
    ensures BlockAt(BlocksLines(d, names), Offset(d, names, k), Offset(d, names, k + 1), names[k], d.sections[names[k]])
  {
    var es := d.sections[names[k]];
    var p := BlocksLines(d, names[..k]);
    var block := SectionLines(names[k], es);
    var tail := BlocksLines(d, names[k + 1..]);
    BlockLayout(d, names, k);
    PlaceBlock(p, block, tail, names[k], es);
    MoveBlock(BlocksLines(d, names), p + (block + tail), Offset(d, names, k), Offset(d, names, k + 1), |p|, |p| + |block|, names[k], es);
  }

  /** The rendering around the `k`-th name: the blocks before it, its own, and the rest. */
  lemma BlockLayout(d: Doc, names: seq<string>, k: nat)
    requires forall i :: 0 <= i < |names| ==> names[i] in d.sections
    requires k < |names|
    ensures var p := BlocksLines(d, names[..k]);
      var block := SectionLines(names[k], d.sections[names[k]]);
      && BlocksLines(d, names) == p + (block + BlocksLines(d, names[k + 1..]))
      && Offset(d, names, k) == |p|
      && Offset(d, names, k + 1) == |p| + |block|
  {
    BlocksSplit(d, names, k);
    BlocksCons(d, names, k);
    OffsetIsPrefixLength(d, names, k);
    BlockSize(names[k], d.sections[names[k]]);
  }

  lemma MoveBlock(all: seq<string>, all': seq<string>, i: nat, j: nat, i': nat, j': nat, name: string, es: seq<Element>)
    requires all == all' && i == i' && j == j'
    requires BlockAt(all', i', j', name, es)
    ensures BlockAt(all, i, j, name, es)
  {
  }

  lemma BlockSize(name: string, es: seq<Element>)
    ensures |SectionLines(name, es)| == 2 + ElementsSize(es)
  {
    ElementsLinesSize(es);
  }

  /** A block placed after `p` starts at `|p|` and ends where its lines end. */
  lemma PlaceBlock(p: seq<string>, block: seq<string>, tail: seq<string>, name: string, es: seq<Element>)
    requires block == SectionLines(name, es)
    ensures BlockAt(p + (block + tail), |p|, |p| + |block|, name, es)
  {
    FirstBlock(name, es, tail);
    ShiftBlock(p, block + tail, 0, |block|, name, es);
  }

  lemma BlocksCons(d: Doc, names: seq<string>, k: nat)
    requires forall i :: 0 <= i < |names| ==> names[i] in d.sections
    requires k < |names|
    ensures BlocksLines(d, names[k..]) == SectionLines(names[k], d.sections[names[k]]) + BlocksLines(d, names[k + 1..])
  {
    assert names[k..][0] == names[k] && names[k..][1..] == names[k + 1..];
  }

  /** Lines `i` to `j` of `ls` are the block of section `name` holding `es`. */
  predicate BlockAt(ls: seq<string>, i: nat, j: nat, name: string, es: seq<Element>) {
    i + 2 <= j <= |ls| && ls[i] == Header(name) && ls[j - 1] == "" && ls[i + 1..j - 1] == ElementsLines(es)
  }

  lemma FirstBlock(name: string, es: seq<Element>, tail: seq<string>)
    ensures BlockAt(SectionLines(name, es) + tail, 0, |SectionLines(name, es)|, name, es)
  {
    var first := SectionLines(name, es);
    var all := first + tail;
    assert all[..|first|] == first;
    assert all[1..|first| - 1] == first[1..|first| - 1];
  }

  lemma ShiftBlock(first: seq<string>, tail: seq<string>, i: nat, j: nat, name: string, es: seq<Element>)
    requires BlockAt(tail, i, j, name, es)
    ensures BlockAt(first + tail, |first| + i, |first| + j, name, es)
  {
    var all := first + tail;
    assert all[|first| + i + 1..|first| + j - 1] == tail[i + 1..j - 1];
  }

  /** The whole rendering has one block per name: its length is the sum of the block sizes. */
  lemma BlocksSize(d: Doc, names: seq<string>)
    requires forall i :: 0 <= i < |names| ==> names[i] in d.sections
    ensures |BlocksLines(d, names)| == Offset(d, names, |names|)
  {
    OffsetIsPrefixLength(d, names, |names|);
    assert names[..|names|] == names;
  }

  // ---------------------------------------------------------------- reading it back

  /** No line of the rendering contains a line break. */
  predicate PlainLines(ls: seq<string>) {
    forall i :: 0 <= i < |ls| ==> NoLineBreak(ls[i])
  }

  /**
   * When every line is free of line breaks (section names, texts, cells,
   * paths, captions and alternative texts), `splitlines()` of the text and a
   * final newline gives the lines back.
   */
  lemma ReadBack(d: Doc)
    requires WellFormed(d) && d.order != [] && PlainLines(RenderLines(d))
    ensures SplitLines(StructuredText(d) + "\n") == RenderLines(d)
  {
    BlocksSize(d, d.order);
    OffsetPositive(d, d.order);
    SplitLinesJoin(RenderLines(d));
  }

  lemma OffsetPositive(d: Doc, names: seq<string>)
    requires forall i :: 0 <= i < |names| ==> names[i] in d.sections
    requires names != []
    ensures Offset(d, names, |names|) >= 2
  {
    OffsetGrows(d, names, |names|);
  }

  lemma {:induction false} OffsetGrows(d: Doc, names: seq<string>, k: nat)
    requires forall i :: 0 <= i < |names| ==> names[i] in d.sections
    requires k <= |names|
    ensures Offset(d, names, k) >= 2 * k
    decreases k
  {
    if k > 0 {
      OffsetGrows(d, names, k - 1);
    }
  }

  /** A picture with no file, as `detect_virtual_image` makes one. */
  lemma VirtualImageLine()
    ensures ElementLines(Image(None, Some("Figure 1"), "", true)) ==
      ["[IMAGE] path=None VIRTUAL=True CAPTION=Figure 1 ALT="]
  {
    ImageLineText();
  }

  lemma ImageLineText()
    ensures "[IMAGE] path=" + "None" + " VIRTUAL=" + "True" + " CAPTION=" + "Figure 1" + " ALT=" + ""
      == "[IMAGE] path=None VIRTUAL=True CAPTION=Figure 1 ALT="
  {
    ImagePathText();
    ImageCaptionText();
    ImageAltText();
  }

  lemma ImagePathText()
    ensures "[IMAGE] path=" + "None" + " VIRTUAL=" == "[IMAGE] path=None VIRTUAL="
  {
  }

  lemma ImageCaptionText()
    ensures "[IMAGE] path=None VIRTUAL=" + "True" + " CAPTION=" == "[IMAGE] path=None VIRTUAL=True CAPTION="
  {
  }

  lemma ImageAltText()
    ensures "[IMAGE] path=None VIRTUAL=True CAPTION=" + "Figure 1" + " ALT=" + ""
      == "[IMAGE] path=None VIRTUAL=True CAPTION=Figure 1 ALT="
  {
  }

  /** A table of two rows. */
  lemma TableLines()
    ensures ElementLines(Table([["a", "b"], ["c"]])) == ["[TABLE]", "a | b", "c", "[/TABLE]"]
  {
    assert Join(" | ", ["a", "b"]) == "a | b";
    assert Join(" | ", ["c"]) == "c";
  }

  /** The empty model renders as the empty string. */
  lemma EmptyRendering()
    ensures StructuredText(Doc(map[], [])) == ""
  {
  }
}
