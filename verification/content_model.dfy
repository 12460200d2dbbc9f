/**
 * The structured model both parsers build: a map from section name to the
 * ordered elements of that section, plus the explicit list of section names
 * in the order they were first met (`sections` and `detected_order` of
 * `DocumentHandler`). Every mutation goes through `Enter` and `Append`, and
 * `Cleanup` is the final pruning step.
 */
module ContentModel {
  import opened Options

  /** One stored piece of content: the `"type"`-tagged dictionaries of the program. */
  datatype Element =
    | Text(content: string)
    | Table(rows: seq<seq<string>>)
    | Image(path: Option<string>, caption: Option<string>, altText: string, virtual: bool)

  datatype Doc = Doc(sections: map<string, seq<Element>>, order: seq<string>)

  const Uncategorized: string := "Uncategorized"

  /** The model a parse starts from: one empty "Uncategorized" section, first in order. */
  function Start(): Doc {
    Doc(map[Uncategorized := []], [Uncategorized])
  }

  predicate NoDuplicates(s: seq<string>) {
    forall i, j :: 0 <= i < j < |s| ==> s[i] != s[j]
  }

  function Elems(s: seq<string>): set<string> {
    set x | x in s
  }

  /** `order` lists every section exactly once. */
  predicate WellFormed(d: Doc) {
    NoDuplicates(d.order) && d.sections.Keys == Elems(d.order)
  }

  /** A well-formed model without sections has an empty `order`. */
  lemma NoSectionsNoOrder(d: Doc)
    requires WellFormed(d) && d.sections == map[]
    ensures d.order == []
  {
    if d.order != [] {
      HasElems(d.order);
      assert false;
    }
  }

  lemma HasElems(s: seq<string>)
    requires s != []
    ensures s[0] in Elems(s)
  {
  }

  /** What a finished parse hands out: well formed, and no section is empty. */
  predicate Finalized(d: Doc) {
    WellFormed(d) && forall n :: n in d.sections ==> d.sections[n] != []
  }

  /** The elements stored under `n`, or none when there is no such section. */
  function SectionOr(d: Doc, n: string): seq<Element> {
    if n in d.sections then d.sections[n] else []
  }

  /**
   * Make `name` the current section: a name not seen before gets an empty
   * section and is appended to the order; a known name changes nothing.
   */
  function Enter(d: Doc, name: string): (r: Doc)
    ensures name in r.sections
    ensures WellFormed(d) ==> WellFormed(r)
    ensures forall n :: SectionOr(r, n) == SectionOr(d, n)
    ensures r.sections.Keys == d.sections.Keys + {name}
    ensures r.order == if name in d.sections then d.order else d.order + [name]
  {
    if name in d.sections then d
    else Doc(d.sections[name := []], d.order + [name])
  }

  /** `sections[name].append(e)` */
  function Append(d: Doc, name: string, e: Element): (r: Doc)
    requires name in d.sections
    ensures r.order == d.order && r.sections.Keys == d.sections.Keys
    ensures WellFormed(d) ==> WellFormed(r)
    ensures forall n :: SectionOr(r, n) == SectionOr(d, n) + (if n == name then [e] else [])
  {
    d.(sections := d.sections[name := d.sections[name] + [e]])
  }

  /** `[s for s in order if s in keep]` */
  function Survivors(order: seq<string>, keep: set<string>): (r: seq<string>)
    ensures forall x :: x in r <==> x in order && x in keep
    ensures |r| <= |order|
    decreases |order|
  {
    if order == [] then []
    else (if order[0] in keep then [order[0]] else []) + Survivors(order[1..], keep)
  }

  lemma {:induction false} SurvivorsNoDuplicates(order: seq<string>, keep: set<string>)
    ensures NoDuplicates(order) ==> NoDuplicates(Survivors(order, keep))
    decreases |order|
  {
    if order != [] && NoDuplicates(order) {
      assert NoDuplicates(order[1..]);
      SurvivorsNoDuplicates(order[1..], keep);
      assert order[0] !in order[1..];
    }
  }

  /** Filtering twice by the same set is filtering once. */
  lemma {:induction false} SurvivorsIdempotent(order: seq<string>, keep: set<string>)
    ensures Survivors(Survivors(order, keep), keep) == Survivors(order, keep)
    decreases |order|
  {
    if order != [] {
      var tail := Survivors(order[1..], keep);
      SurvivorsIdempotent(order[1..], keep);
      if order[0] in keep {
        assert Survivors(order, keep) == [order[0]] + tail;
        assert ([order[0]] + tail)[1..] == tail;
      } else {
        assert Survivors(order, keep) == tail;
      }
    }
  }

  /**
   * `_cleanup`: drop every empty section from the map and from the order,
   * keeping the relative order of the survivors.
   */
  function Cleanup(d: Doc): (r: Doc)
    ensures forall n :: n in r.sections <==> n in d.sections && d.sections[n] != []
    ensures forall n :: n in r.sections ==> r.sections[n] == d.sections[n]
    ensures r.order == Survivors(d.order, r.sections.Keys)
    ensures WellFormed(d) ==> Finalized(r)
  {
    var kept := map n | n in d.sections && d.sections[n] != [] :: d.sections[n];
    SurvivorsNoDuplicates(d.order, kept.Keys);
    Doc(kept, Survivors(d.order, kept.Keys))
  }

  /** Cleaning up a cleaned-up model changes nothing. */
  lemma CleanupIdempotent(d: Doc)
    ensures Cleanup(Cleanup(d)) == Cleanup(d)
  {
    var c := Cleanup(d);
    var cc := Cleanup(c);
    assert cc.sections == c.sections;
    SurvivorsIdempotent(d.order, c.sections.Keys);
  }

  // ---------------------------------------------------------------- first-encounter order

  /** Index of the first occurrence of `x` in `s`. */
  function FirstIndex(s: seq<string>, x: string): (i: nat)
    requires x in s
    ensures i < |s| && s[i] == x
    decreases |s|
  {
    if s[0] == x then 0 else 1 + FirstIndex(s[1..], x)
  }

  lemma {:induction false} FirstIndexIsFirst(s: seq<string>, x: string, k: nat)
    requires x in s && k < FirstIndex(s, x)
    ensures s[k] != x
    decreases |s|
  {
    if k > 0 {
      FirstIndexIsFirst(s[1..], x, k - 1);
    }
  }

  /** Every item of `r` occurs in `s`, and `r` lists them by their first occurrence in `s`. */
  predicate InFirstEncounterOrder(r: seq<string>, s: seq<string>) {
    (forall i :: 0 <= i < |r| ==> r[i] in s) &&
    forall i, j :: 0 <= i < j < |r| ==> FirstIndex(s, r[i]) < FirstIndex(s, r[j])
  }

  /**
   * Extend `seen` with every name of `names` not yet in it, in order: the
   * fold `Enter` performs on `order`.
   */
  function AppendUnseen(seen: seq<string>, names: seq<string>): seq<string>
    decreases |names|
  {
    if names == [] then seen
    else AppendUnseen(if names[0] in seen then seen else seen + [names[0]], names[1..])
  }

  lemma AppendUnseenCons(seen: seq<string>, x: string, names: seq<string>)
    ensures AppendUnseen(seen, [x] + names) == AppendUnseen(if x in seen then seen else seen + [x], names)
  {
    assert ([x] + names)[0] == x && ([x] + names)[1..] == names;
  }

  lemma {:induction false} AppendUnseenPrefix(seen: seq<string>, names: seq<string>)
    ensures |seen| <= |AppendUnseen(seen, names)|
    ensures AppendUnseen(seen, names)[..|seen|] == seen
    decreases |names|
  {
    if names != [] {
      var seen' := if names[0] in seen then seen else seen + [names[0]];
      AppendUnseenPrefix(seen', names[1..]);
      assert seen'[..|seen|] == seen;
    }
  }

  /** Whatever `AppendUnseen` adds comes from `names`, is new, and is added once. */
  lemma {:induction false} AppendUnseenNew(seen: seq<string>, names: seq<string>)
    requires NoDuplicates(seen)
    ensures var r := AppendUnseen(seen, names);
      && NoDuplicates(r)
      && Elems(r) == Elems(seen) + Elems(names)
      && (forall i :: |seen| <= i < |r| ==> r[i] !in seen && r[i] in names)
    decreases |names|
  {
    AppendUnseenPrefix(seen, names);
    if names != [] {
      var x := names[0];
      var seen' := if x in seen then seen else seen + [x];
      var r := AppendUnseen(seen', names[1..]);
      assert names == [x] + names[1..];
      AppendUnseenNew(seen', names[1..]);
      AppendUnseenPrefix(seen', names[1..]);
      forall i | |seen| <= i < |r|
        ensures r[i] !in seen && r[i] in names
      {
        if i < |seen'| {
          assert r[i] == seen'[i] == x;
        }
      }
    }
  }

  /**
   * `AppendUnseen` keeps `seen` as a prefix and adds each new name of
   * `names` exactly once, ordered by where `names` first mentions it.
   */
  lemma {:induction false} AppendUnseenSpec(seen: seq<string>, names: seq<string>)
    requires NoDuplicates(seen)
    ensures var r := AppendUnseen(seen, names);
      && |seen| <= |r| && r[..|seen|] == seen
      && NoDuplicates(r)
      && Elems(r) == Elems(seen) + Elems(names)
      && (forall i :: |seen| <= i < |r| ==> r[i] !in seen && r[i] in names)
      && (forall i, j :: |seen| <= i < j < |r| ==> FirstIndex(names, r[i]) < FirstIndex(names, r[j]))
    decreases |names|
  {
    AppendUnseenPrefix(seen, names);
    AppendUnseenNew(seen, names);
    if names != [] {
      var x := names[0];
      var tail := names[1..];
      var seen' := if x in seen then seen else seen + [x];
      var r := AppendUnseen(seen', tail);
      AppendUnseenSpec(seen', tail);
      AppendUnseenPrefix(seen', tail);
      forall i | |seen'| <= i < |r|
        ensures FirstIndex(names, r[i]) == 1 + FirstIndex(tail, r[i])
      {
        assert r[i] !in seen';
        assert x in seen';
        assert r[i] != x;
      }
      forall i, j | |seen| <= i < j < |r|
        ensures FirstIndex(names, r[i]) < FirstIndex(names, r[j])
      {
        if i < |seen'| {
          assert r[i] == seen'[i] == x;
        }
      }
    }
  }

  /** The de-duplication of `names` by first encounter. */
  lemma FirstEncounterSpec(names: seq<string>)
    ensures var r := AppendUnseen([], names);
      NoDuplicates(r) && Elems(r) == Elems(names) && InFirstEncounterOrder(r, names)
  {
    AppendUnseenSpec([], names);
  }

  lemma InFirstEncounterOrderTail(order: seq<string>, names: seq<string>)
    requires order != [] && InFirstEncounterOrder(order, names)
    ensures InFirstEncounterOrder(order[1..], names)
  {
    var tail := order[1..];
    forall i, j | 0 <= i < j < |tail|
      ensures FirstIndex(names, tail[i]) < FirstIndex(names, tail[j])
    {
      assert tail[i] == order[i + 1] && tail[j] == order[j + 1];
    }
  }

  lemma InFirstEncounterOrderCons(x: string, rest: seq<string>, names: seq<string>)
    requires x in names && InFirstEncounterOrder(rest, names)
    requires forall y :: y in rest ==> y in names && FirstIndex(names, x) < FirstIndex(names, y)
    ensures InFirstEncounterOrder([x] + rest, names)
  {
    var r := [x] + rest;
    forall i | 0 <= i < |r| ensures r[i] in names {
      if i > 0 {
        assert r[i] == rest[i - 1];
      }
    }
    forall i, j | 0 <= i < j < |r|
      ensures FirstIndex(names, r[i]) < FirstIndex(names, r[j])
    {
      ConsPair(x, rest, names, i, j);
    }
  }

  lemma ConsPair(x: string, rest: seq<string>, names: seq<string>, i: nat, j: nat)
    requires x in names && InFirstEncounterOrder(rest, names)
    requires forall y :: y in rest ==> y in names && FirstIndex(names, x) < FirstIndex(names, y)
    requires i < j < |rest| + 1
    ensures ([x] + rest)[i] in names && ([x] + rest)[j] in names
    ensures FirstIndex(names, ([x] + rest)[i]) < FirstIndex(names, ([x] + rest)[j])
  {
    var r := [x] + rest;
    var y := rest[j - 1];
    assert r[j] == y;
    assert y in rest;
    if i == 0 {
      assert r[i] == x;
    } else {
      assert r[i] == rest[i - 1];
    }
  }

  /** Dropping names from a first-encounter ordering leaves a first-encounter ordering. */
  lemma {:induction false} SurvivorsKeepOrder(order: seq<string>, keep: set<string>, names: seq<string>)
    requires InFirstEncounterOrder(order, names)
    ensures InFirstEncounterOrder(Survivors(order, keep), names)
    decreases |order|
  {
    if order != [] {
      var tail := order[1..];
      InFirstEncounterOrderTail(order, names);
      SurvivorsKeepOrder(tail, keep, names);
      var rt := Survivors(tail, keep);
      if order[0] in keep {
        forall y | y in rt
          ensures y in names && FirstIndex(names, order[0]) < FirstIndex(names, y)
        {
          var k :| 0 <= k < |tail| && tail[k] == y;
          assert order[k + 1] == y;
        }
        assert order[0] in names;
        InFirstEncounterOrderCons(order[0], rt, names);
      }
    }
  }

  // ---------------------------------------------------------------- grouping a log of emitted elements

  /** The elements of a log of (section, element) emissions that went to section `n`, in log order. */
  function Group(log: seq<(string, Element)>, n: string): seq<Element>
    decreases |log|
  {
    if log == [] then []
    else Group(log[..|log| - 1], n) + (if log[|log| - 1].0 == n then [log[|log| - 1].1] else [])
  }

  lemma GroupSnoc(log: seq<(string, Element)>, m: string, e: Element, n: string)
    ensures Group(log + [(m, e)], n) == Group(log, n) + (if m == n then [e] else [])
  {
    assert (log + [(m, e)])[..|log|] == log;
  }

  lemma {:induction false} GroupAppend(a: seq<(string, Element)>, b: seq<(string, Element)>, n: string)
    ensures Group(a + b, n) == Group(a, n) + Group(b, n)
    decreases |b|
  {
    if b == [] {
      assert a + b == a;
    } else {
      var last := b[|b| - 1];
      var init := b[..|b| - 1];
      assert a + b == (a + init) + [last];
      assert b == init + [last];
      GroupSnoc(a + init, last.0, last.1, n);
      GroupSnoc(init, last.0, last.1, n);
      GroupAppend(a, init, n);
    }
  }

  /**
   * When every section holds exactly its share of a log, cleanup keeps
   * precisely the sections the log sends something to, with that share.
   */
  lemma CleanupOfGrouped(d: Doc, log: seq<(string, Element)>)
    requires forall n :: SectionOr(d, n) == Group(log, n)
    ensures forall n :: n in Cleanup(d).sections <==> Group(log, n) != []
    ensures forall n :: n in Cleanup(d).sections ==> Cleanup(d).sections[n] == Group(log, n)
  {
    forall n ensures n in Cleanup(d).sections <==> Group(log, n) != [] {
      assert SectionOr(d, n) == Group(log, n);
    }
  }

  /** `after` is `before` with every section extended by its share of `log`. */
  ghost predicate Extends(after: Doc, before: Doc, log: seq<(string, Element)>) {
    forall n :: SectionOr(after, n) == SectionOr(before, n) + Group(log, n)
  }

  /** Starting from the fresh model, the content is exactly what the log sends to each section. */
  lemma ExtendsStart(f: Doc, log: seq<(string, Element)>)
    requires Extends(f, Start(), log)
    ensures forall n :: SectionOr(f, n) == Group(log, n)
  {
    forall n ensures SectionOr(f, n) == Group(log, n) {
      assert SectionOr(Start(), n) == [];
      assert SectionOr(f, n) == SectionOr(Start(), n) + Group(log, n);
    }
  }

  lemma ExtendsTrans(c: Doc, b: Doc, a: Doc, second: seq<(string, Element)>, first: seq<(string, Element)>)
    requires Extends(b, a, first) && Extends(c, b, second)
    ensures Extends(c, a, first + second)
  {
    forall n ensures SectionOr(c, n) == SectionOr(a, n) + Group(first + second, n) {
      ExtendsTransAt(SectionOr(c, n), SectionOr(b, n), SectionOr(a, n), Group(first, n), Group(second, n));
      GroupAppend(first, second, n);
    }
  }

  /** One section of `ExtendsTrans`: two successive extensions are one. */
  lemma ExtendsTransAt(c: seq<Element>, b: seq<Element>, a: seq<Element>, y: seq<Element>, z: seq<Element>)
    requires b == a + y && c == b + z
    ensures c == a + (y + z)
  {
  }
}
