/**
 * The Python `str` operations the document pipeline relies on, over ASCII:
 * `isspace`, `isdigit`, `lower`, `strip`, `title`, `split()`, `splitlines()`,
 * `join` and the substring test `k in s`, plus the greedy `\d+` scan the
 * hand-written regular expressions share.
 */
module PyStr {

  /** Whitespace as both `str.isspace()` and the regex class `\s` see it. */
  predicate IsSpace(c: char) {
    c == ' ' || ('\t' <= c <= '\r') || ('\U{1C}' <= c <= '\U{1F}')
  }

  /** The regex class `\d`. */
  predicate IsDigit(c: char) { '0' <= c <= '9' }

  predicate IsUpper(c: char) { 'A' <= c <= 'Z' }

  predicate IsLower(c: char) { 'a' <= c <= 'z' }

  /** The cased characters: the ones `title()` treats as part of a word. */
  predicate IsLetter(c: char) { IsUpper(c) || IsLower(c) }

  function LowerChar(c: char): char {
    if IsUpper(c) then (c as int + 32) as char else c
  }

  function UpperChar(c: char): char {
    if IsLower(c) then (c as int - 32) as char else c
  }

  /** `s.lower()` */
  function Lower(s: string): (r: string)
    ensures |r| == |s|
    ensures forall i :: 0 <= i < |s| ==> r[i] == LowerChar(s[i])
  {
    seq(|s|, i requires 0 <= i < |s| => LowerChar(s[i]))
  }

  lemma LowerSlice(s: string, a: nat, b: nat)
    requires a <= b <= |s|
    ensures Lower(s[a..b]) == Lower(s)[a..b]
  {
  }

  lemma LowerSuffix(s: string, a: nat)
    requires a <= |s|
    ensures Lower(s[a..]) == Lower(s)[a..]
  {
  }

  lemma LowerAppend(s: string, t: string)
    ensures Lower(s + t) == Lower(s) + Lower(t)
  {
  }

  /** Text without upper-case letters is its own lower-case form. */
  lemma LowerKeeps(s: string)
    requires forall i :: 0 <= i < |s| ==> !IsUpper(s[i])
    ensures Lower(s) == s
  {
  }

  lemma LowerIdempotent(s: string)
    ensures Lower(Lower(s)) == Lower(s)
  {
  }

  // ---------------------------------------------------------------- strip

  /** `s.lstrip()`: the longest suffix of `s` that does not start with whitespace. */
  function LStrip(s: string): (r: string)
    ensures |r| <= |s| && r == s[|s| - |r|..]
    ensures r == "" || !IsSpace(r[0])
    ensures forall i :: 0 <= i < |s| - |r| ==> IsSpace(s[i])
    decreases |s|
  {
    if s != "" && IsSpace(s[0]) then LStrip(s[1..]) else s
  }

  /** `s.rstrip()`: the longest prefix of `s` that does not end with whitespace. */
  function RStrip(s: string): (r: string)
    ensures |r| <= |s| && r == s[..|r|]
    ensures r == "" || !IsSpace(r[|r| - 1])
    ensures forall i :: |r| <= i < |s| ==> IsSpace(s[i])
    decreases |s|
  {
    if s != "" && IsSpace(s[|s| - 1]) then RStrip(s[..|s| - 1]) else s
  }

  /** `s.strip()` */
  function Strip(s: string): string {
    RStrip(LStrip(s))
  }

  predicate AllSpace(s: string) {
    forall i :: 0 <= i < |s| ==> IsSpace(s[i])
  }

  /** Neither end of `s` is whitespace: what `strip()` leaves. */
  predicate IsStripped(s: string) {
    s == "" || (!IsSpace(s[0]) && !IsSpace(s[|s| - 1]))
  }

  lemma StripIsStripped(s: string)
    ensures IsStripped(Strip(s))
  {
  }

  /** `strip()` removes everything exactly when everything is whitespace. */
  lemma StripEmptyIff(s: string)
    ensures Strip(s) == "" <==> AllSpace(s)
  {
    var l := LStrip(s);
    if l != "" {
      assert l[0] == s[|s| - |l|];
      assert RStrip(l) != "";
    }
  }

  lemma StrippedFixpoint(s: string)
    requires IsStripped(s)
    ensures LStrip(s) == s && RStrip(s) == s && Strip(s) == s
  {
    assert LStrip(s) == s;
    assert RStrip(s) == s;
  }

  lemma StripIdempotent(s: string)
    ensures Strip(Strip(s)) == Strip(s)
  {
    StripIsStripped(s);
    StrippedFixpoint(Strip(s));
  }

  lemma {:induction false} LStripSkips(p: string, x: string)
    requires AllSpace(p)
    ensures LStrip(p + x) == LStrip(x)
    decreases |p|
  {
    if p != "" {
      assert (p + x)[0] == p[0];
      assert (p + x)[1..] == p[1..] + x;
      assert AllSpace(p[1..]);
      assert LStrip(p + x) == LStrip((p + x)[1..]);
      LStripSkips(p[1..], x);
      assert LStrip(p[1..] + x) == LStrip(x);
    } else {
      assert p + x == x;
    }
  }

  lemma {:induction false} RStripSkips(x: string, p: string)
    requires AllSpace(p)
    ensures RStrip(x + p) == RStrip(x)
    decreases |p|
  {
    if p != "" {
      assert (x + p)[|x + p| - 1] == p[|p| - 1];
      assert (x + p)[..|x + p| - 1] == x + p[..|p| - 1];
      assert AllSpace(p[..|p| - 1]);
      RStripSkips(x, p[..|p| - 1]);
    } else {
      assert x + p == x;
    }
  }

  lemma TakeDrop<T>(s: seq<T>, k: nat)
    requires k <= |s|
    ensures s[..k] + s[k..] == s
  {
  }

  lemma AppendAssoc<T>(a: seq<T>, b: seq<T>, c: seq<T>)
    ensures (a + b) + c == a + (b + c)
  {
  }

  /** `s` is the whitespace `lstrip()` removes followed by what it keeps. */
  lemma LStripParts(s: string)
    ensures var k := |s| - |LStrip(s)|; s[..k] + LStrip(s) == s && AllSpace(s[..k])
  {
    var k := |s| - |LStrip(s)|;
    TakeDrop(s, k);
    var p := s[..k];
    forall i | 0 <= i < |p| ensures IsSpace(p[i]) {
      assert p[i] == s[i];
    }
  }

  /** Appending whitespace does not change what `strip()` returns. */
  lemma StripIgnoresTrailingSpace(x: string, p: string)
    requires AllSpace(p)
    ensures Strip(x + p) == Strip(x)
  {
    var l := LStrip(x);
    var k := |x| - |l|;
    LStripParts(x);
    AppendAssoc(x[..k], l, p);
    LStripSkips(x[..k], l + p);
    if l == "" {
      assert l + p == p;
      LStripSkips(p, "");
      assert p + "" == p;
    } else {
      LStripOfStrippedEnd(l, p);
      RStripSkips(l, p);
    }
  }

  lemma LStripIdempotent(s: string)
    ensures LStrip(LStrip(s)) == LStrip(s)
  {
  }

  lemma LowerCharSpace(c: char)
    ensures IsSpace(LowerChar(c)) <==> IsSpace(c)
  {
  }

  lemma {:induction false} LowerLStrip(s: string)
    ensures Lower(LStrip(s)) == LStrip(Lower(s))
    decreases |s|
  {
    if s != "" {
      var t := Lower(s);
      assert t[0] == LowerChar(s[0]);
      LowerCharSpace(s[0]);
      LowerSuffix(s, 1);
      if IsSpace(s[0]) {
        assert LStrip(s) == LStrip(s[1..]);
        assert LStrip(t) == LStrip(t[1..]);
        LowerLStrip(s[1..]);
      } else {
        assert LStrip(s) == s;
        assert LStrip(t) == t;
      }
    }
  }

  lemma {:induction false} LowerRStrip(s: string)
    ensures Lower(RStrip(s)) == RStrip(Lower(s))
    decreases |s|
  {
    if s != "" {
      assert Lower(s)[|s| - 1] == LowerChar(s[|s| - 1]);
      LowerSlice(s, 0, |s| - 1);
      assert s[0..|s| - 1] == s[..|s| - 1];
      assert Lower(s)[0..|s| - 1] == Lower(s)[..|s| - 1];
      LowerRStrip(s[..|s| - 1]);
    }
  }

  /** Lower-casing and stripping commute. */
  lemma LowerStrip(s: string)
    ensures Lower(Strip(s)) == Strip(Lower(s))
  {
    LowerLStrip(s);
    LowerRStrip(LStrip(s));
  }

  lemma LStripOfStrippedEnd(l: string, p: string)
    requires l != "" && !IsSpace(l[0])
    ensures LStrip(l + p) == l + p
  {
    assert (l + p)[0] == l[0];
  }

  // ---------------------------------------------------------------- title

  /**
   * `s.title()`, written as the left-to-right scan Python performs: a
   * character is lower-cased when the previous character was a letter and
   * upper-cased otherwise.
   */
  function Title(s: string): (r: string)
    ensures |r| == |s|
    ensures forall i :: 0 <= i < |s| ==>
              r[i] == (if i > 0 && IsLetter(s[i - 1]) then LowerChar(s[i]) else UpperChar(s[i]))
  {
    TitleFrom(s, false)
  }

  function TitleFrom(s: string, afterLetter: bool): (r: string)
    ensures |r| == |s|
    ensures forall i :: 0 <= i < |s| ==>
              r[i] == (if (i == 0 && afterLetter) || (i > 0 && IsLetter(s[i - 1]))
                       then LowerChar(s[i]) else UpperChar(s[i]))
    decreases |s|
  {
    if s == "" then ""
    else [if afterLetter then LowerChar(s[0]) else UpperChar(s[0])] + TitleFrom(s[1..], IsLetter(s[0]))
  }

  /** Title-casing only changes the case of letters. */
  lemma LowerTitle(s: string)
    ensures Lower(Title(s)) == Lower(s)
  {
    var t := Title(s);
    forall i | 0 <= i < |s|
      ensures Lower(t)[i] == Lower(s)[i]
    {
      var c := s[i];
      assert Lower(t)[i] == LowerChar(t[i]);
      assert t[i] == (if i > 0 && IsLetter(s[i - 1]) then LowerChar(c) else UpperChar(c));
      assert LowerChar(UpperChar(c)) == LowerChar(c);
      assert LowerChar(LowerChar(c)) == LowerChar(c);
    }
  }

  /** Title-casing does not look at the case of its input. */
  lemma TitleIgnoresCase(s: string)
    ensures Title(Lower(s)) == Title(s)
  {
    var l := Lower(s);
    forall i | 0 <= i < |s|
      ensures Title(l)[i] == Title(s)[i]
    {
      assert l[i] == LowerChar(s[i]);
      assert i > 0 ==> l[i - 1] == LowerChar(s[i - 1]) && (IsLetter(l[i - 1]) <==> IsLetter(s[i - 1]));
    }
  }

  /** Title-cased text is left alone by `title()`. */
  lemma TitleIdempotent(s: string)
    ensures Title(Title(s)) == Title(s)
  {
    var t := Title(s);
    forall i | 0 <= i < |s|
      ensures Title(t)[i] == t[i]
    {
      if i > 0 {
        var c := s[i - 1];
        assert t[i - 1] == (if i - 1 > 0 && IsLetter(s[i - 2]) then LowerChar(c) else UpperChar(c));
        assert IsLetter(LowerChar(c)) == IsLetter(c) && IsLetter(UpperChar(c)) == IsLetter(c);
      }
      var c := s[i];
      assert t[i] == (if i > 0 && IsLetter(s[i - 1]) then LowerChar(c) else UpperChar(c));
      assert LowerChar(LowerChar(c)) == LowerChar(c) && UpperChar(UpperChar(c)) == UpperChar(c);
    }
  }

  /** A lower-case word is title-cased by upper-casing its first letter. */
  lemma TitleOfLowerWord(w: string)
    requires w != "" && forall i :: 0 <= i < |w| ==> IsLower(w[i])
    ensures Title(w) == [UpperChar(w[0])] + w[1..]
  {
    var t := Title(w);
    var u := [UpperChar(w[0])] + w[1..];
    forall i | 0 <= i < |w|
      ensures t[i] == u[i]
    {
      if i > 0 {
        assert IsLetter(w[i - 1]);
      }
    }
  }

  // ---------------------------------------------------------------- join and split

  /** `sep.join(parts)` */
  function Join(sep: string, parts: seq<string>): string
    decreases |parts|
  {
    if |parts| == 0 then ""
    else if |parts| == 1 then parts[0]
    else parts[0] + sep + Join(sep, parts[1..])
  }

  lemma JoinCons(sep: string, parts: seq<string>)
    requires |parts| >= 2
    ensures Join(sep, parts) == parts[0] + (sep + Join(sep, parts[1..]))
  {
  }

  lemma HeadTail<T>(s: seq<T>)
    requires s != []
    ensures s == [s[0]] + s[1..]
  {
  }

  /** A non-empty run of non-whitespace characters: one item of `split()`. */
  predicate IsWord(w: string) {
    w != "" && forall i :: 0 <= i < |w| ==> !IsSpace(w[i])
  }

  predicate AllWords(ws: seq<string>) {
    forall i :: 0 <= i < |ws| ==> IsWord(ws[i])
  }

  /** Length of the leading non-whitespace run of `t`. */
  function WordLength(t: string): (n: nat)
    ensures n <= |t|
    ensures forall i :: 0 <= i < n ==> !IsSpace(t[i])
    ensures n == |t| || IsSpace(t[n])
    decreases |t|
  {
    if t == "" || IsSpace(t[0]) then 0 else 1 + WordLength(t[1..])
  }

  lemma TailWords(words: seq<string>)
    requires words != [] && AllWords(words)
    ensures AllWords(words[1..])
  {
    var more := words[1..];
    forall k | 0 <= k < |more| ensures IsWord(more[k]) { assert more[k] == words[k + 1]; }
  }

  lemma ConsWords(w: string, ws: seq<string>)
    requires IsWord(w) && AllWords(ws)
    ensures AllWords([w] + ws)
  {
    forall i | 0 <= i < |ws| + 1 ensures IsWord(([w] + ws)[i]) {
      if i > 0 { assert ([w] + ws)[i] == ws[i - 1]; }
    }
  }

  /** `s.split()` with no separator: the maximal runs of non-whitespace, in order. */
  function SplitWords(s: string): (r: seq<string>)
    ensures AllWords(r)
    decreases |s|
  {
    var t := LStrip(s);
    if t == "" then []
    else
      var n := WordLength(t);
      var w := t[..n];
      assert IsWord(w) by { assert n > 0; }
      var rest := SplitWords(t[n..]);
      ConsWords(w, rest);
      [w] + rest
  }

  lemma WordLengthOfWord(w: string, rest: string)
    requires IsWord(w)
    requires rest == "" || IsSpace(rest[0])
    ensures WordLength(w + rest) == |w|
  {
    var n := WordLength(w + rest);
    assert forall i :: 0 <= i < |w| ==> (w + rest)[i] == w[i];
    assert rest != "" ==> (w + rest)[|w|] == rest[0];
  }

  lemma SplitWordsSkipsSpace(p: string, x: string)
    requires AllSpace(p)
    ensures SplitWords(p + x) == SplitWords(x)
  {
    LStripSkips(p, x);
  }

  lemma SplitWordsLStrip(s: string)
    ensures SplitWords(LStrip(s)) == SplitWords(s)
  {
    var k := |s| - |LStrip(s)|;
    LStripParts(s);
    SplitWordsSkipsSpace(s[..k], LStrip(s));
  }

  /** `split()` finds no word exactly in all-whitespace text. */
  lemma SplitWordsEmptyIff(s: string)
    ensures SplitWords(s) == [] <==> AllSpace(s)
  {
    var l := LStrip(s);
    if l != "" {
      assert l[0] == s[|s| - |l|];
    }
  }

  /** A word followed by whitespace or nothing is the first item of `split()`. */
  lemma SplitWordsFirst(w: string, rest: string)
    requires IsWord(w)
    requires rest == "" || IsSpace(rest[0])
    ensures SplitWords(w + rest) == [w] + SplitWords(rest)
  {
    var s := w + rest;
    assert s[0] == w[0];
    assert LStrip(s) == s;
    WordLengthOfWord(w, rest);
    assert s[..|w|] == w;
    assert s[|w|..] == rest;
  }

  lemma SplitWordsSpaced(w: string, rest: string)
    requires IsWord(w)
    ensures SplitWords(w + (" " + rest)) == [w] + SplitWords(rest)
  {
    SplitWordsFirst(w, " " + rest);
    SplitWordsSkipsSpace(" ", rest);
  }

  /** `" ".join(ws).split() == ws` whenever every item is a word. */
  lemma {:induction false} SplitJoin(ws: seq<string>)
    requires AllWords(ws)
    ensures SplitWords(Join(" ", ws)) == ws
    decreases |ws|
  {
    if |ws| == 0 {
      assert Join(" ", ws) == "";
      assert SplitWords("") == [];
    } else if |ws| == 1 {
      assert Join(" ", ws) == ws[0];
      assert ws[0] + "" == ws[0];
      assert IsWord(ws[0]);
      SplitWordsFirst(ws[0], "");
      assert SplitWords("") == [];
      assert ws == [ws[0]];
    } else {
      var tail := ws[1..];
      JoinCons(" ", ws);
      SplitWordsSpaced(ws[0], Join(" ", tail));
      TailWords(ws);
      SplitJoin(tail);
      HeadTail(ws);
    }
  }

  /** Joining with a separator after the last part adds the separator and the new part at the end. */
  lemma {:induction false} JoinSnoc(sep: string, parts: seq<string>, x: string)
    requires parts != []
    ensures Join(sep, parts + [x]) == Join(sep, parts) + sep + x
    decreases |parts|
  {
    var all := parts + [x];
    if |parts| == 1 {
      assert all == [parts[0], x];
      assert all[1..] == [x];
    } else {
      JoinSnoc(sep, parts[1..], x);
      assert all[1..] == parts[1..] + [x];
      assert all[0] == parts[0];
    }
  }

  /** The `" "`-join of words is non-empty when there are words, and neither end is whitespace. */
  lemma {:induction false} JoinWordsStripped(ws: seq<string>)
    requires ws != [] && AllWords(ws)
    ensures Join(" ", ws) != "" && IsStripped(Join(" ", ws))
    ensures Join(" ", ws)[0] == ws[0][0]
    decreases |ws|
  {
    if |ws| >= 2 {
      TailWords(ws);
      JoinWordsStripped(ws[1..]);
      JoinCons(" ", ws);
      var j := Join(" ", ws);
      var r := Join(" ", ws[1..]);
      assert j == ws[0] + (" " + r);
      assert j[0] == ws[0][0];
      assert j[|j| - 1] == r[|r| - 1];
    }
  }

  /** The `" "`-join of words is empty exactly when there are none. */
  lemma JoinWordsEmptyIff(ws: seq<string>)
    requires AllWords(ws)
    ensures Join(" ", ws) == "" <==> ws == []
  {
    if ws != [] {
      JoinWordsStripped(ws);
    }
  }

  // ---------------------------------------------------------------- splitlines

  /** The ASCII line boundaries of `str.splitlines()`: \n, \r, \v, \f, \x1c, \x1d, \x1e. */
  predicate IsLineBreak(c: char) {
    ('\n' <= c <= '\r') || ('\U{1C}' <= c <= '\U{1E}')
  }

  predicate NoLineBreak(s: string) {
    forall i :: 0 <= i < |s| ==> !IsLineBreak(s[i])
  }

  /**
   * `s.splitlines()`: breaks at every line boundary (`\r\n` counts as one)
   * and does not produce an item after a final boundary.
   */
  function SplitLines(s: string): (r: seq<string>)
    ensures forall i :: 0 <= i < |r| ==> NoLineBreak(r[i])
    ensures forall i, j :: 0 <= i < |r| && 0 <= j < |r[i]| ==> r[i][j] in s
  {
    SplitLinesFrom(s, "")
  }

  /** `splitlines()` of `s` when `line` holds the characters already read of the current line. */
  function SplitLinesFrom(s: string, line: string): (r: seq<string>)
    requires NoLineBreak(line)
    ensures forall i :: 0 <= i < |r| ==> NoLineBreak(r[i])
    ensures forall i, j :: 0 <= i < |r| && 0 <= j < |r[i]| ==> r[i][j] in line || r[i][j] in s
    decreases |s|
  {
    if s == "" then (if line == "" then [] else [line])
    else if s[0] == '\r' && |s| > 1 && s[1] == '\n' then [line] + SplitLinesFrom(s[2..], "")
    else if IsLineBreak(s[0]) then [line] + SplitLinesFrom(s[1..], "")
    else SplitLinesFrom(s[1..], line + [s[0]])
  }

  lemma {:induction false} SplitLinesReadsLine(a: string, s: string, line: string)
    requires NoLineBreak(line) && NoLineBreak(a)
    ensures SplitLinesFrom(a + s, line) == SplitLinesFrom(s, line + a)
    decreases |a|
  {
    if a != "" {
      assert (a + s)[0] == a[0];
      assert (a + s)[1..] == a[1..] + s;
      assert line + a == (line + [a[0]]) + a[1..];
      SplitLinesReadsLine(a[1..], s, line + [a[0]]);
    } else {
      assert a + s == s;
      assert line + a == line;
    }
  }

  /** A `\n` ends exactly the line before it. */
  lemma SplitLinesNewline(a: string, b: string)
    requires NoLineBreak(a)
    ensures SplitLines(a + "\n" + b) == [a] + SplitLines(b)
  {
    assert a + "\n" + b == a + ("\n" + b);
    SplitLinesReadsLine(a, "\n" + b, "");
    assert "" + a == a;
    assert ("\n" + b)[1..] == b;
  }

  /** Splitting the `"\n".join` of break-free lines, followed by a newline, gives the lines back. */
  lemma {:induction false} SplitLinesJoin(ls: seq<string>)
    requires |ls| > 0
    requires forall i :: 0 <= i < |ls| ==> NoLineBreak(ls[i])
    ensures SplitLines(Join("\n", ls) + "\n") == ls
    decreases |ls|
  {
    if |ls| == 1 {
      SplitLinesNewline(ls[0], "");
      assert ls[0] + "\n" + "" == ls[0] + "\n";
    } else {
      var rest := Join("\n", ls[1..]);
      assert Join("\n", ls) + "\n" == ls[0] + "\n" + (rest + "\n");
      SplitLinesNewline(ls[0], rest + "\n");
      SplitLinesJoin(ls[1..]);
      assert ls == [ls[0]] + ls[1..];
    }
  }

  // ---------------------------------------------------------------- search

  /** `k` occurs in `s` starting at index `i`. */
  predicate OccursAt(s: string, k: string, i: nat) {
    i + |k| <= |s| && s[i..i + |k|] == k
  }

  /** The substring test `k in s`. */
  predicate Contains(s: string, k: string) {
    exists i: nat | i <= |s| :: OccursAt(s, k, i)
  }

  /** `s.startswith(p)` */
  predicate StartsWith(s: string, p: string) {
    OccursAt(s, p, 0)
  }

  /** An occurrence stays an occurrence when text is added around it. */
  lemma ContainsInContext(a: string, s: string, b: string, k: string)
    requires Contains(s, k)
    ensures Contains(a + s + b, k)
  {
    var i: nat :| i <= |s| && OccursAt(s, k, i);
    var t := a + s + b;
    assert t[|a| + i..|a| + i + |k|] == s[i..i + |k|];
    assert OccursAt(t, k, |a| + i);
  }

  /** A run of digits followed by a non-digit has exactly that run as its digit run. */
  lemma {:induction false} DigitRunOfDigits(n: string, y: string)
    requires forall i :: 0 <= i < |n| ==> IsDigit(n[i])
    requires y == "" || !IsDigit(y[0])
    ensures DigitRun(n + y) == |n|
    decreases |n|
  {
    if n == "" {
      assert n + y == y;
    } else {
      assert (n + y)[0] == n[0];
      assert (n + y)[1..] == n[1..] + y;
      DigitRunOfDigits(n[1..], y);
    }
  }

  /** The leading digit run does not see past a non-digit. */
  lemma {:induction false} DigitRunPrefix(l: string, p: string)
    requires DigitRun(l) < |l|
    ensures DigitRun(l + p) == DigitRun(l)
    decreases |l|
  {
    assert (l + p)[0] == l[0];
    if IsDigit(l[0]) {
      assert (l + p)[1..] == l[1..] + p;
      DigitRunPrefix(l[1..], p);
    }
  }

  lemma {:induction false} DigitRunLower(s: string)
    ensures DigitRun(Lower(s)) == DigitRun(s)
    decreases |s|
  {
    if s != "" {
      assert Lower(s)[0] == LowerChar(s[0]);
      LowerSuffix(s, 1);
      DigitRunLower(s[1..]);
    }
  }

  /** The greedy scan `\d*` from the start of `s`: the length of its leading digit run. */
  function DigitRun(s: string): (n: nat)
    ensures n <= |s|
    ensures forall i :: 0 <= i < n ==> IsDigit(s[i])
    ensures n == |s| || !IsDigit(s[n])
    decreases |s|
  {
    if s == "" || !IsDigit(s[0]) then 0 else 1 + DigitRun(s[1..])
  }
}
