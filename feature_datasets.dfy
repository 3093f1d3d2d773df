/**
  The list of feature datasets to create in the project geodatabase,
  collected from the `feature_dataset` column of the configuration rows.
 */
module FeatureDatasets {
  import opened Wrappers

  /** One row of a configuration file. */
  datatype ConfigRow = ConfigRow(
    layerSource: string,
    featureDataset: string,
    clipOutput: string,
    selectOutput: string,
    clipSymbology: string,
    selectSymbology: string)

  /** The `feature_dataset` column, row by row. */
  function FeatureDatasetsOf(rows: seq<ConfigRow>): (fds: seq<string>)
    ensures |fds| == |rows| && forall i :: 0 <= i < |rows| ==> fds[i] == rows[i].featureDataset
    ensures forall r :: r in rows ==> r.featureDataset in fds
  {
    seq(|rows|, i requires 0 <= i < |rows| => rows[i].featureDataset)
  }

  predicate NoDuplicates(xs: seq<string>) {
    forall i, j :: 0 <= i < j < |xs| ==> xs[i] != xs[j]
  }

  /**
    Each value of `xs` once, in the order of its first occurrence: what a
    list grows into when every value not yet in it is appended.
   */
  function FirstSeen(xs: seq<string>): (r: seq<string>)
    ensures NoDuplicates(r)
    ensures forall x :: x in r <==> x in xs
  {
    if xs == [] then []
    else
      var p := FirstSeen(xs[..|xs| - 1]);
      var x := xs[|xs| - 1];
      assert forall y :: y in xs <==> y in xs[..|xs| - 1] || y == x;
      if x in p then p else p + [x]
  }

  /** The index of the first occurrence of `x` in `xs`. */
  function FirstIndex(xs: seq<string>, x: string): (k: nat)
    requires x in xs
    ensures k < |xs| && xs[k] == x && x !in xs[..k]
  {
    if xs[0] == x then 0
    else
      var k := 1 + FirstIndex(xs[1..], x);
      assert xs[..k] == [xs[0]] + xs[1..][..k - 1];
      k
  }

  /** Adding a value at the end does not move the first occurrence of a value already present. */
  lemma FirstIndexAppend(xs: seq<string>, y: string, x: string)
    requires x in xs
    ensures FirstIndex(xs + [y], x) == FirstIndex(xs, x)
  {
    var a, b := FirstIndex(xs + [y], x), FirstIndex(xs, x);
    assert (xs + [y])[..b] == xs[..b];
    assert (xs + [y])[b] == x;
  }

  /** The values of `FirstSeen(xs)` appear in the order in which `xs` first mentions them. */
  lemma {:induction false} FirstSeenOrder(xs: seq<string>, i: nat, j: nat)
    requires i < j < |FirstSeen(xs)|
    ensures FirstIndex(xs, FirstSeen(xs)[i]) < FirstIndex(xs, FirstSeen(xs)[j])
  {
    var init, y := xs[..|xs| - 1], xs[|xs| - 1];
    assert xs == init + [y];
    var p := FirstSeen(init);
    var r := FirstSeen(xs);
    if y in p {
      FirstSeenOrder(init, i, j);
      FirstIndexAppend(init, y, r[i]);
      FirstIndexAppend(init, y, r[j]);
    } else if j < |p| {
      FirstSeenOrder(init, i, j);
      FirstIndexAppend(init, y, r[i]);
      FirstIndexAppend(init, y, r[j]);
    } else {
      assert r[j] == y && y !in init;
      FirstIndexAppend(init, y, r[i]);
      assert FirstIndex(xs, y) == |init|;
    }
  }

  /** Reading one more row extends what has been read by that row's feature dataset. */
  lemma ReadOneMore(seen: seq<string>, rows: seq<ConfigRow>, i: nat)
    requires i < |rows|
    ensures var before, x := seen + FeatureDatasetsOf(rows[..i]), rows[i].featureDataset;
      FirstSeen(seen + FeatureDatasetsOf(rows[..i + 1])) ==
        if x in FirstSeen(before) then FirstSeen(before) else FirstSeen(before) + [x]
  {
    ghost var before := seen + FeatureDatasetsOf(rows[..i]);
    ghost var after := seen + FeatureDatasetsOf(rows[..i + 1]);
    assert after == before + [rows[i].featureDataset];
    assert after[..|after| - 1] == before;
  }

  /**
    Appends to `fdlist`, which holds `FirstSeen(seen)`, every feature
    dataset of `rows` that it does not hold yet, in row order.
   */
  method AppendNewFeatureDatasets(ghost seen: seq<string>, fdlist0: seq<string>, rows: seq<ConfigRow>)
    returns (fdlist: seq<string>)
    requires fdlist0 == FirstSeen(seen)
    ensures fdlist == FirstSeen(seen + FeatureDatasetsOf(rows))
  {
    fdlist := fdlist0;
    var i := 0;
    assert seen + FeatureDatasetsOf(rows[..0]) == seen;
    while i < |rows|
      invariant 0 <= i <= |rows|
      invariant fdlist == FirstSeen(seen + FeatureDatasetsOf(rows[..i]))
    {
      ReadOneMore(seen, rows, i);
      if rows[i].featureDataset !in fdlist {
        fdlist := fdlist + [rows[i].featureDataset];
      }
      i := i + 1;
    }
    assert rows[..i] == rows;
  }

  /**
    The feature datasets named by the configuration: those of the first
    file, except that when a second file is given the list is started
    afresh and holds those of the second file only.
   */
  method GetCsvData(extra1: seq<ConfigRow>, extra2: Option<seq<ConfigRow>>) returns (fdlist: seq<string>)
    ensures extra2.None? ==> fdlist == FirstSeen(FeatureDatasetsOf(extra1))
    ensures extra2.Some? ==> fdlist == FirstSeen(FeatureDatasetsOf(extra2.value))
  {
    fdlist := AppendNewFeatureDatasets([], [], extra1);
    assert [] + FeatureDatasetsOf(extra1) == FeatureDatasetsOf(extra1);
    if extra2.Some? {
      fdlist := AppendNewFeatureDatasets([], [], extra2.value);
      assert [] + FeatureDatasetsOf(extra2.value) == FeatureDatasetsOf(extra2.value);
    }
  }

  /**
    With a second file given, a feature dataset named only by the first
    file is missing from the list, although the first file's rows are
    still processed into it.
   */
  lemma SecondConfigDropsFirst()
    ensures
      var first := [ConfigRow("hydro.shp", "Hydrography", "Streams", "", "", "")];
      var second := [ConfigRow("roads.shp", "Transportation", "Roads", "", "", "")];
      && "Hydrography" in FeatureDatasetsOf(first)
      && "Hydrography" !in FirstSeen(FeatureDatasetsOf(second))
  {
    var second := [ConfigRow("roads.shp", "Transportation", "Roads", "", "", "")];
    assert FeatureDatasetsOf(second) == ["Transportation"];
    assert "Hydrography"[0] != "Transportation"[0];
  }

  /**
    In general: with a second file given, no name that only the first file
    uses is in the list.
   */
  lemma FirstFileOnlyNamesDropped(extra1: seq<ConfigRow>, extra2: seq<ConfigRow>, x: string)
    requires x in FeatureDatasetsOf(extra1) && x !in FeatureDatasetsOf(extra2)
    ensures x !in FirstSeen(FeatureDatasetsOf(extra2))
  {
  }

  /**
    The list the project set-up needs: every feature dataset of the first
    file and then of the second, each once, in first-seen order.
   */
  method GetCsvDataMerged(extra1: seq<ConfigRow>, extra2: Option<seq<ConfigRow>>) returns (fdlist: seq<string>)
    ensures NoDuplicates(fdlist)
    ensures forall r :: r in extra1 ==> r.featureDataset in fdlist
    ensures extra2.Some? ==> forall r :: r in extra2.value ==> r.featureDataset in fdlist
    ensures forall x :: x in fdlist ==>
      x in FeatureDatasetsOf(extra1) || (extra2.Some? && x in FeatureDatasetsOf(extra2.value))
    ensures fdlist == FirstSeen(FeatureDatasetsOf(extra1) + (if extra2.Some? then FeatureDatasetsOf(extra2.value) else []))
  {
    fdlist := AppendNewFeatureDatasets([], [], extra1);
    assert [] + FeatureDatasetsOf(extra1) == FeatureDatasetsOf(extra1);
    if extra2.Some? {
      fdlist := AppendNewFeatureDatasets(FeatureDatasetsOf(extra1), fdlist, extra2.value);
    } else {
      assert FeatureDatasetsOf(extra1) + [] == FeatureDatasetsOf(extra1);
    }
  }
}
