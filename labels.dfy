/** The label pipeline of addWheelEntries: trim every label, keep the first
    occurrence of each (`[...new Set(...)]`), drop the empty ones, then keep
    only those no stored entry already carries. */
module Labels {
  import opened Text

  predicate Distinct(xs: seq<string>) {
    forall i, j :: 0 <= i < j < |xs| ==> xs[i] != xs[j]
  }

  function TrimAll(labels: seq<string>): (r: seq<string>)
    ensures |r| == |labels|
    ensures forall i :: 0 <= i < |labels| ==> r[i] == Trim(labels[i])
  {
    seq(|labels|, i requires 0 <= i < |labels| => Trim(labels[i]))
  }

  /** `[...new Set(xs)]`: each value once, at the place it first occurs. */
  function Dedup(xs: seq<string>): (r: seq<string>)
    ensures Distinct(r)
    ensures forall x :: x in r <==> x in xs
    ensures |r| <= |xs|
    decreases |xs|
  {
    if xs == [] then []
    else
      var p := Dedup(xs[..|xs| - 1]);
      assert xs == xs[..|xs| - 1] + [xs[|xs| - 1]];
      if xs[|xs| - 1] in p then p else p + [xs[|xs| - 1]]
  }

  /** `.filter((label) => label.length)` */
  function DropEmpty(xs: seq<string>): (r: seq<string>)
    ensures forall x :: x in r <==> x in xs && x != ""
    ensures Distinct(xs) ==> Distinct(r)
    decreases |xs|
  {
    if xs == [] then []
    else
      var p := DropEmpty(xs[..|xs| - 1]);
      assert xs == xs[..|xs| - 1] + [xs[|xs| - 1]];
      assert Distinct(xs) ==> xs[|xs| - 1] !in xs[..|xs| - 1];
      if xs[|xs| - 1] == "" then p else p + [xs[|xs| - 1]]
  }

  /** The normalised label list of addWheelEntries, built in one pass:
      each label is trimmed and kept unless it is blank or already kept.
      `NormalizeIsPipeline` shows it is the source's map / Set / filter
      pipeline. */
  function Normalize(labels: seq<string>): (r: seq<string>)
    ensures |r| <= |labels|
    decreases |labels|
  {
    if labels == [] then []
    else
      var p := Normalize(labels[..|labels| - 1]);
      var t := Trim(labels[|labels| - 1]);
      if t == "" || t in p then p else p + [t]
  }

  /** Every kept label is distinct from the others, trimmed and not blank. */
  lemma {:induction false} NormalizeWellFormed(labels: seq<string>)
    ensures var r := Normalize(labels);
      Distinct(r) && forall x :: x in r ==> x != "" && IsTrimmed(x)
    decreases |labels|
  {
    if labels != [] {
      NormalizeWellFormed(labels[..|labels| - 1]);
    }
  }

  /** Appending one value to a list drops it from the result exactly when it
      is blank. */
  lemma DropEmptyAppend(xs: seq<string>, x: string)
    ensures DropEmpty(xs + [x]) == DropEmpty(xs) + (if x == "" then [] else [x])
  {
    assert (xs + [x])[..|xs|] == xs;
  }

  lemma {:induction false} NormalizeIsPipeline(labels: seq<string>)
    ensures Normalize(labels) == DropEmpty(Dedup(TrimAll(labels)))
    decreases |labels|
  {
    if labels != [] {
      var pre := labels[..|labels| - 1];
      var t := Trim(labels[|labels| - 1]);
      NormalizeIsPipeline(pre);
      var xs := TrimAll(labels);
      assert xs[..|xs| - 1] == TrimAll(pre);
      assert xs[|xs| - 1] == t;
      var d := Dedup(TrimAll(pre));
      if t !in d {
        DropEmptyAppend(d, t);
      }
    }
  }

  /** A label is kept exactly when it is the trim of some input and not blank. */
  lemma NormalizeMembers(labels: seq<string>)
    ensures forall x :: x in Normalize(labels) <==> x != "" && exists i :: 0 <= i < |labels| && Trim(labels[i]) == x
  {
    NormalizeIsPipeline(labels);
    var trimmed := TrimAll(labels);
    assert forall x :: x in trimmed <==> exists i :: 0 <= i < |labels| && Trim(labels[i]) == x;
  }

  /** The labels addWheelEntries inserts: those of `normalized` that are not
      in `held`, the labels of every stored entry, active or not, kept in
      their order. What it keeps is stated by `NewLabelsSpec`. */
  function NewLabels(normalized: seq<string>, held: set<string>): (r: seq<string>)
    ensures |r| <= |normalized|
    decreases |normalized|
  {
    if normalized == [] then []
    else
      var p := NewLabels(normalized[..|normalized| - 1], held);
      var last := normalized[|normalized| - 1];
      if last in held then p else p + [last]
  }

  /** A label is inserted exactly when it is a normalised label no stored
      entry carries, and distinct labels stay distinct. */
  lemma {:induction false} NewLabelsSpec(normalized: seq<string>, held: set<string>)
    ensures forall x :: x in NewLabels(normalized, held) <==> x in normalized && x !in held
    ensures Distinct(normalized) ==> Distinct(NewLabels(normalized, held))
    decreases |normalized|
  {
    if normalized != [] {
      var init := normalized[..|normalized| - 1];
      var last := normalized[|normalized| - 1];
      NewLabelsSpec(init, held);
      assert normalized == init + [last];
      assert Distinct(normalized) ==> Distinct(init) && last !in init;
    }
  }
}
