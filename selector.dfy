/** The data selector around the text transform: the two pick-lists built from the
    dataset, the guard that waits for both choices, the filter on the chosen model and
    property name, and the outcome that is shown (a hint, a warning, or the rows). */
module Selector {
  import opened TextFormat

  /** One row of the dataset; every field is already text. */
  datatype Record = Record(
    model: string,
    propertyName: string,
    subjectData: string,
    compData: string,
    narrative: string)

  /** The first entries of the two pick-lists, which stand for "nothing chosen yet". */
  const ModelSentinel: string := "Select Model"
  const PropertySentinel: string := "Select Property Name"

  /** The `Model` column. */
  function Models(ds: seq<Record>): (col: seq<string>)
    ensures |col| == |ds| && forall i :: 0 <= i < |ds| ==> col[i] == ds[i].model
  {
    seq(|ds|, i requires 0 <= i < |ds| => ds[i].model)
  }

  /** The `Property Name` column. */
  function PropertyNames(ds: seq<Record>): (col: seq<string>)
    ensures |col| == |ds| && forall i :: 0 <= i < |ds| ==> col[i] == ds[i].propertyName
  {
    seq(|ds|, i requires 0 <= i < |ds| => ds[i].propertyName)
  }

  // ---------------------------------------------------------------------------------
  // Pick-lists: distinct values in first-seen order
  // ---------------------------------------------------------------------------------

  /** The position where `x` first occurs in `xs`. */
  function FirstIndex(xs: seq<string>, x: string): (k: nat)
    requires x in xs
    ensures k < |xs| && xs[k] == x
    ensures forall j :: 0 <= j < k ==> xs[j] != x
  {
    if xs[0] == x then 0
    else
      assert x in xs[1..] by { assert xs == [xs[0]] + xs[1..]; }
      1 + FirstIndex(xs[1..], x)
  }

  lemma FirstIndexPrefix(xs: seq<string>, z: string, y: string)
    requires y in xs
    ensures FirstIndex(xs + [z], y) == FirstIndex(xs, y)
  {
    var k1, k2 := FirstIndex(xs + [z], y), FirstIndex(xs, y);
    assert (xs + [z])[k2] == y;
    assert k1 <= k2;
    assert xs[k1] == (xs + [z])[k1];
  }

  lemma FirstIndexLast(xs: seq<string>, z: string)
    requires z !in xs
    ensures FirstIndex(xs + [z], z) == |xs|
  {
  }

  /** The values of `xs` with every repeat dropped, each kept where it first occurs. */
  function Unique(xs: seq<string>): (u: seq<string>)
    ensures forall x :: x in u <==> x in xs
    ensures forall i, j :: 0 <= i < j < |u| ==> u[i] != u[j]
  {
    if xs == [] then []
    else
      var p, z := xs[..|xs| - 1], xs[|xs| - 1];
      assert xs == p + [z];
      var u := Unique(p);
      if z in u then u else u + [z]
  }

  /** The distinct values come out in the order in which each is first seen. */
  lemma {:induction false} UniqueFirstSeen(xs: seq<string>)
    ensures forall i, j :: 0 <= i < j < |Unique(xs)| ==>
      FirstIndex(xs, Unique(xs)[i]) < FirstIndex(xs, Unique(xs)[j])
  {
    if xs != [] {
      var p, z := xs[..|xs| - 1], xs[|xs| - 1];
      assert xs == p + [z];
      var u, v := Unique(xs), Unique(p);
      UniqueFirstSeen(p);
      forall i | 0 <= i < |v|
        ensures FirstIndex(xs, v[i]) == FirstIndex(p, v[i])
      {
        FirstIndexPrefix(p, z, v[i]);
      }
      if z !in v {
        FirstIndexLast(p, z);
        assert u == v + [z];
      }
    }
  }

  /** A sequence without repeats has as many elements as its set. */
  lemma {:induction false} CardinalityOfDistinct(s: seq<string>)
    requires forall i, j :: 0 <= i < j < |s| ==> s[i] != s[j]
    ensures |set x | x in s| == |s|
  {
    if s != [] {
      var p, z := s[..|s| - 1], s[|s| - 1];
      assert s == p + [z];
      CardinalityOfDistinct(p);
      assert (set x | x in s) == (set x | x in p) + {z};
      assert z !in p by {
        forall i | 0 <= i < |p| ensures p[i] != z {
          assert p[i] == s[i];
        }
      }
    }
  }

  /** There are as many distinct values as the column has different values. */
  lemma UniqueCount(xs: seq<string>)
    ensures |Unique(xs)| == |set x | x in xs|
  {
    CardinalityOfDistinct(Unique(xs));
    assert (set x | x in Unique(xs)) == (set x | x in xs);
  }

  /** A pick-list: the sentinel first, then the column's distinct values. */
  method PickList(column: seq<string>, sentinel: string) returns (choices: seq<string>)
    ensures |choices| >= 1 && choices[0] == sentinel
    ensures choices[1..] == Unique(column)
  {
    var values: seq<string> := [];
    for i := 0 to |column|
      invariant values == Unique(column[..i])
    {
      assert column[..i + 1] == column[..i] + [column[i]];
      assert column[..i + 1][..i] == column[..i];
      if column[i] !in values {
        values := values + [column[i]];
      }
    }
    assert column[..|column|] == column;
    choices := [sentinel] + values;
  }

  /** The Model and Property Name pick-lists offered in the sidebar. */
  method PickLists(ds: seq<Record>) returns (models: seq<string>, properties: seq<string>)
    ensures |models| == |set x | x in Models(ds)| + 1
    ensures models[0] == ModelSentinel && models[1..] == Unique(Models(ds))
    ensures |properties| == |set x | x in PropertyNames(ds)| + 1
    ensures properties[0] == PropertySentinel && properties[1..] == Unique(PropertyNames(ds))
  {
    models := PickList(Models(ds), ModelSentinel);
    properties := PickList(PropertyNames(ds), PropertySentinel);
    UniqueCount(Models(ds));
    UniqueCount(PropertyNames(ds));
  }

  // ---------------------------------------------------------------------------------
  // Guard and filter
  // ---------------------------------------------------------------------------------

  /** Both pick-lists have left their sentinels. */
  predicate BothSelected(m: string, p: string) {
    m != ModelSentinel && p != PropertySentinel
  }

  /** Which rows the filter keeps. */
  datatype Criterion =
    | PropertyIs(p: string)
    | ModelIs(m: string)
    | Both(m: string, p: string)

  predicate Holds(c: Criterion, r: Record) {
    match c
    case PropertyIs(p) => r.propertyName == p
    case ModelIs(m) => r.model == m
    case Both(m, p) => r.model == m && r.propertyName == p
  }

  /** The three-way choice of filter as the selector writes it. */
  function FilterFor(m: string, p: string): (c: Criterion)
    ensures c.PropertyIs? <==> m == ModelSentinel
    ensures c.ModelIs? <==> m != ModelSentinel && p == PropertySentinel
  {
    if m == ModelSentinel then PropertyIs(p)
    else if p == PropertySentinel then ModelIs(m)
    else Both(m, p)
  }

  /** Once both choices are made, the single-key filters can never be chosen. */
  lemma SingleKeyBranchesUnreachable(m: string, p: string)
    requires BothSelected(m, p)
    ensures FilterFor(m, p) == Both(m, p)
  {
  }

  /** The rows that satisfy `c`, in dataset order. */
  function Where(ds: seq<Record>, c: Criterion): seq<Record> {
    if ds == [] then []
    else
      var rest := Where(ds[..|ds| - 1], c);
      if Holds(c, ds[|ds| - 1]) then rest + [ds[|ds| - 1]] else rest
  }

  /** How many rows satisfy `c`. */
  function HoldCount(ds: seq<Record>, c: Criterion): nat {
    if ds == [] then 0
    else HoldCount(ds[..|ds| - 1], c) + (if Holds(c, ds[|ds| - 1]) then 1 else 0)
  }

  lemma HoldCountPrefix(ds: seq<Record>, c: Criterion, i: nat, j: nat)
    requires i <= j <= |ds|
    ensures HoldCount(ds[..i], c) <= HoldCount(ds[..j], c)
    decreases j - i
  {
    if i < j {
      HoldCountPrefix(ds, c, i, j - 1);
      assert ds[..j][..j - 1] == ds[..j - 1];
    }
  }

  /** As many rows are kept as satisfy the criterion. */
  lemma {:induction false} WhereLength(ds: seq<Record>, c: Criterion)
    ensures |Where(ds, c)| == HoldCount(ds, c)
  {
    if ds != [] {
      WhereLength(ds[..|ds| - 1], c);
    }
  }

  /** The filter keeps every row that satisfies the criterion and nothing else. */
  lemma {:induction false} WhereMembers(ds: seq<Record>, c: Criterion)
    ensures forall r :: r in Where(ds, c) <==> r in ds && Holds(c, r)
  {
    if ds != [] {
      var p, z := ds[..|ds| - 1], ds[|ds| - 1];
      assert ds == p + [z];
      WhereMembers(p, c);
    }
  }

  /** The row at position `i` of the dataset, when kept, lands at the position given by
      the number of kept rows before it, so the kept rows keep their order. */
  lemma {:induction false} WherePositions(ds: seq<Record>, c: Criterion)
    ensures forall i :: 0 <= i < |ds| && Holds(c, ds[i]) ==>
      HoldCount(ds[..i], c) < |Where(ds, c)| && Where(ds, c)[HoldCount(ds[..i], c)] == ds[i]
  {
    if ds != [] {
      var p, z := ds[..|ds| - 1], ds[|ds| - 1];
      WherePositions(p, c);
      WhereLength(p, c);
      forall i | 0 <= i < |p|
        ensures ds[..i] == p[..i]
      {
      }
      assert ds[..|p|] == p;
    }
  }

  /** Two kept rows appear in the result in the order they have in the dataset. */
  lemma KeptInOrder(ds: seq<Record>, c: Criterion, i: nat, j: nat)
    requires i < j < |ds| && Holds(c, ds[i]) && Holds(c, ds[j])
    ensures var a, b := HoldCount(ds[..i], c), HoldCount(ds[..j], c);
      a < b < |Where(ds, c)| && Where(ds, c)[a] == ds[i] && Where(ds, c)[b] == ds[j]
  {
    WherePositions(ds, c);
    HoldCountPrefix(ds, c, i + 1, j);
    assert ds[..i + 1][..i] == ds[..i];
  }

  /** The three facts above together: the filter is the order-preserving subsequence of
      the rows satisfying the criterion. */
  lemma WhereExactly(ds: seq<Record>, c: Criterion)
    ensures |Where(ds, c)| == HoldCount(ds, c)
    ensures forall r :: r in Where(ds, c) <==> r in ds && Holds(c, r)
    ensures forall i :: 0 <= i < |ds| && Holds(c, ds[i]) ==>
      HoldCount(ds[..i], c) < |Where(ds, c)| && Where(ds, c)[HoldCount(ds[..i], c)] == ds[i]
  {
    WhereLength(ds, c);
    WhereMembers(ds, c);
    WherePositions(ds, c);
  }

  /** Filtering twice by the same criterion keeps the same rows. */
  lemma {:induction false} WhereIdempotent(ds: seq<Record>, c: Criterion)
    ensures Where(Where(ds, c), c) == Where(ds, c)
  {
    WhereMembers(ds, c);
    WhereOfMatching(Where(ds, c), c);
  }

  /** Rows that all satisfy the criterion come back unchanged. */
  lemma {:induction false} WhereOfMatching(ds: seq<Record>, c: Criterion)
    requires forall r :: r in ds ==> Holds(c, r)
    ensures Where(ds, c) == ds
  {
    if ds != [] {
      var p := ds[..|ds| - 1];
      assert ds == p + [ds[|ds| - 1]];
      WhereOfMatching(p, c);
    }
  }

  // ---------------------------------------------------------------------------------
  // Outcome
  // ---------------------------------------------------------------------------------

  /** What the page shows: a hint to choose both values, a "no data" warning, or rows. */
  datatype Outcome =
    | NeedBoth
    | NoMatch
    | Rows(rows: seq<Record>)

  /** The outcome of the current choices, as a function. */
  function Decide(ds: seq<Record>, m: string, p: string): Outcome {
    if !BothSelected(m, p) then NeedBoth
    else
      var kept := Where(ds, FilterFor(m, p));
      if kept == [] then NoMatch else Rows(kept)
  }

  /** The hint appears exactly when a sentinel is still chosen; the warning appears
      exactly when both are chosen and no row has that model and that property name;
      otherwise the rows shown are exactly the rows with both, in dataset order. */
  lemma DecideCases(ds: seq<Record>, m: string, p: string)
    ensures Decide(ds, m, p) == NeedBoth <==> m == ModelSentinel || p == PropertySentinel
    ensures Decide(ds, m, p) == NoMatch <==>
      m != ModelSentinel && p != PropertySentinel &&
      forall r :: r in ds ==> !(r.model == m && r.propertyName == p)
    ensures Decide(ds, m, p).Rows? ==>
      var rows := Decide(ds, m, p).rows;
      rows != [] &&
      (forall r :: r in rows <==> r in ds && r.model == m && r.propertyName == p) &&
      rows == Where(ds, Both(m, p))
  {
    WhereMembers(ds, Both(m, p));
    if BothSelected(m, p) {
      var kept := Where(ds, Both(m, p));
      if kept != [] {
        assert kept[0] in kept;
      }
    }
  }

  /** One row as the page lays it out: its heading and its three formatted texts. */
  datatype View = View(heading: string, subjectHtml: string, compHtml: string, narrativeHtml: string)

  function Render(r: Record): View {
    View(
      "### Model: " + r.model + " | Property Name: " + r.propertyName,
      FormatText(r.subjectData, false),
      FormatText(r.compData, false),
      FormatText(r.narrative, true))
  }

  /** The formatted texts of a row hold no raw line break, and every `$` in them is
      escaped, with as many `$` as the row's own texts. */
  lemma RenderClean(r: Record)
    ensures '\n' !in Render(r).subjectHtml && '\n' !in Render(r).compHtml
    ensures '\n' !in Render(r).narrativeHtml
    ensures DollarsEscaped(Render(r).subjectHtml) && DollarsEscaped(Render(r).compHtml)
    ensures DollarsEscaped(Render(r).narrativeHtml)
    ensures Count(Render(r).subjectHtml, '$') == Count(r.subjectData, '$')
    ensures Count(Render(r).compHtml, '$') == Count(r.compData, '$')
    ensures Count(Render(r).narrativeHtml, '$') == Count(r.narrative, '$')
  {
    FormatTextNoNewline(r.subjectData, false);
    FormatTextNoNewline(r.compData, false);
    FormatTextNoNewline(r.narrative, true);
    FormatTextDollars(r.subjectData, false);
    FormatTextDollars(r.compData, false);
    FormatTextDollars(r.narrative, true);
  }

  /** The page for the current choices: guard, filter loop, empty check, render loop. */
  method Show(ds: seq<Record>, m: string, p: string) returns (outcome: Outcome, views: seq<View>)
    ensures outcome == Decide(ds, m, p)
    ensures outcome.Rows? ==>
      |views| == |outcome.rows| &&
      forall k :: 0 <= k < |views| ==> views[k] == Render(outcome.rows[k])
    ensures !outcome.Rows? ==> views == []
  {
    views := [];
    if !(m != ModelSentinel && p != PropertySentinel) {
      outcome := NeedBoth;
      return;
    }
    var criterion: Criterion;
    if m == ModelSentinel {
      criterion := PropertyIs(p);
    } else if p == PropertySentinel {
      criterion := ModelIs(m);
    } else {
      criterion := Both(m, p);
    }
    var kept: seq<Record> := [];
    for i := 0 to |ds|
      invariant kept == Where(ds[..i], criterion)
    {
      assert ds[..i + 1] == ds[..i] + [ds[i]];
      assert ds[..i + 1][..i] == ds[..i];
      if Holds(criterion, ds[i]) {
        kept := kept + [ds[i]];
      }
    }
    assert ds[..|ds|] == ds;
    if kept == [] {
      outcome := NoMatch;
    } else {
      outcome := Rows(kept);
      for k := 0 to |kept|
        invariant |views| == k
        invariant forall j :: 0 <= j < k ==> views[j] == Render(kept[j])
      {
        views := views + [Render(kept[k])];
      }
    }
  }
}
