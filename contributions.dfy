/** The contribution table: one row per non-zero (feature value × coefficient) of a document,
    followed by that document's intercept row; and the choice of the most decisive feature of
    a document. */
module Contributions {
  import opened Text
  import opened Features

  /** The short (vocabulary) and long (display) name of a selected feature. */
  datatype FeatureName = FeatureName(short: string, long: string)

  /** A row of the contribution table: speech id, short name, long name, value, feature type. */
  datatype ContribRow = ContribRow(speechId: int, shortName: string, longName: string,
                                   value: real, featureType: FeatureType)

  /** A row whose feature type is derived from its long name, as the table's last column is. */
  function MakeRow(speechId: int, short: string, long: string, value: real): ContribRow
  {
    ContribRow(speechId, short, long, value, DetermineFeatureType(long))
  }

  function InterceptRow(speechId: int, intercept: real): ContribRow
  {
    MakeRow(speechId, InterceptName, InterceptName, intercept)
  }

  /** One row of the contribution matrix: the document's feature values scaled by the
      coefficients. */
  function ContribVector(featureRow: seq<real>, coefs: seq<real>): seq<real>
    requires |featureRow| == |coefs|
  {
    seq(|coefs|, j requires 0 <= j < |coefs| => featureRow[j] * coefs[j])
  }

  /** The column indices of the non-zero entries, in ascending order. */
  function NonzeroIndices(c: seq<real>): (js: seq<nat>)
    ensures forall k :: 0 <= k < |js| ==> js[k] < |c| && c[js[k]] != 0.0
    ensures forall k, l :: 0 <= k < l < |js| ==> js[k] < js[l]
    ensures forall j :: 0 <= j < |c| && c[j] != 0.0 ==> j in js
  {
    if c == [] then []
    else
      var n := |c| - 1;
      NonzeroIndices(c[..n]) + (if c[n] != 0.0 then [n] else [])
  }

  /** The list comprehension over one document's contributions: a row for every non-zero entry,
      in column order. */
  function NonzeroRows(speechId: int, c: seq<real>, names: seq<FeatureName>): seq<ContribRow>
    requires |c| == |names|
  {
    var js := NonzeroIndices(c);
    seq(|js|, k requires 0 <= k < |js| => MakeRow(speechId, names[js[k]].short, names[js[k]].long, c[js[k]]))
  }

  /** All rows of one document: its non-zero contributions, then its intercept row. */
  function DocRows(speechId: int, c: seq<real>, names: seq<FeatureName>, intercept: real): seq<ContribRow>
    requires |c| == |names|
  {
    NonzeroRows(speechId, c, names) + [InterceptRow(speechId, intercept)]
  }

  /** The inputs of the expansion: a feature-value row per document, one coefficient and one
      name per selected feature. */
  predicate Conformant(features: seq<seq<real>>, coefs: seq<real>, names: seq<FeatureName>)
  {
    |names| == |coefs| && forall i :: 0 <= i < |features| ==> |features[i]| == |coefs|
  }

  /** The rows each document contributes, document by document. */
  function DocBlocks(ids: seq<int>, features: seq<seq<real>>, coefs: seq<real>,
                     names: seq<FeatureName>, intercept: real): (blocks: seq<seq<ContribRow>>)
    requires |ids| == |features| && Conformant(features, coefs, names)
    ensures |blocks| == |ids|
  {
    seq(|ids|, k requires 0 <= k < |ids| => DocRows(ids[k], ContribVector(features[k], coefs), names, intercept))
  }

  /** The first `m` blocks, one after the other. */
  function Flatten(blocks: seq<seq<ContribRow>>, m: nat): seq<ContribRow>
    requires m <= |blocks|
  {
    if m == 0 then [] else Flatten(blocks, m - 1) + blocks[m - 1]
  }

  /** The table the expansion loop accumulates: every document's rows, in document order. */
  function ContribTable(ids: seq<int>, features: seq<seq<real>>, coefs: seq<real>,
                        names: seq<FeatureName>, intercept: real): seq<ContribRow>
    requires |ids| == |features| && Conformant(features, coefs, names)
  {
    Flatten(DocBlocks(ids, features, coefs, names, intercept), |ids|)
  }

  /** The row-expansion loop of populate_contrib_data. */
  method ExpandContribs(ids: seq<int>, features: seq<seq<real>>, coefs: seq<real>,
                        names: seq<FeatureName>, intercept: real) returns (tups: seq<ContribRow>)
    requires |ids| == |features| && Conformant(features, coefs, names)
    ensures tups == ContribTable(ids, features, coefs, names, intercept)
  {
    ghost var blocks := DocBlocks(ids, features, coefs, names, intercept);
    tups := [];
    var i := 0;
    while i < |ids|
      invariant 0 <= i <= |ids|
      invariant tups == Flatten(blocks, i)
    {
      var row := ContribVector(features[i], coefs);
      var newTups := NonzeroRows(ids[i], row, names);
      newTups := newTups + [InterceptRow(ids[i], intercept)];
      assert newTups == blocks[i];
      tups := tups + newTups;
      i := i + 1;
    }
  }

  /** What a document contributes: one row per non-zero entry, in column order, carrying that
      column's names and value; then exactly one intercept row carrying the intercept. All rows
      carry the document's id. */
  lemma DocRowsShape(speechId: int, c: seq<real>, names: seq<FeatureName>, intercept: real)
    requires |c| == |names|
    ensures var rows := DocRows(speechId, c, names, intercept);
      var js := NonzeroIndices(c);
      |rows| == |js| + 1 &&
      (forall r :: r in rows ==> r.speechId == speechId) &&
      (forall k :: 0 <= k < |js| ==>
         rows[k] == MakeRow(speechId, names[js[k]].short, names[js[k]].long, c[js[k]]) && rows[k].value != 0.0) &&
      rows[|js|] == ContribRow(speechId, InterceptName, InterceptName, intercept, Intercept)
  {
    InterceptNameIsIntercept();
  }

  lemma DocRowsIds(speechId: int, c: seq<real>, names: seq<FeatureName>, intercept: real)
    requires |c| == |names|
    ensures forall r :: r in DocRows(speechId, c, names, intercept) ==> r.speechId == speechId
  {
  }

  /** When no selected feature's long name classifies as an intercept, a document has exactly
      one intercept-typed row, its last. */
  lemma SingleInterceptRow(speechId: int, c: seq<real>, names: seq<FeatureName>, intercept: real)
    requires |c| == |names|
    requires forall n :: n in names ==> DetermineFeatureType(n.long) != Intercept
    ensures var rows := DocRows(speechId, c, names, intercept);
      forall k :: 0 <= k < |rows| ==> (rows[k].featureType == Intercept <==> k == |rows| - 1)
  {
    InterceptNameIsIntercept();
    var rows := DocRows(speechId, c, names, intercept);
    var js := NonzeroIndices(c);
    forall k | 0 <= k < |js| ensures rows[k].featureType != Intercept {
      assert names[js[k]] in names;
    }
  }

  // ---------------------------------------------------------------------------------------
  // The rows of one speech

  /** The rows whose speech id is `id`, in table order. */
  function RowsOf(rows: seq<ContribRow>, id: int): seq<ContribRow>
  {
    if rows == [] then []
    else (if rows[0].speechId == id then [rows[0]] else []) + RowsOf(rows[1..], id)
  }

  /** The selection holds exactly the rows with that id. */
  lemma {:induction false} RowsOfMembers(rows: seq<ContribRow>, id: int)
    ensures forall x :: x in RowsOf(rows, id) <==> x in rows && x.speechId == id
  {
    if rows != [] {
      RowsOfMembers(rows[1..], id);
      assert rows == [rows[0]] + rows[1..];
    }
  }

  lemma {:induction false} RowsOfConcat(a: seq<ContribRow>, b: seq<ContribRow>, id: int)
    ensures RowsOf(a + b, id) == RowsOf(a, id) + RowsOf(b, id)
  {
    if a == [] {
      assert a + b == b;
    } else {
      var h := if a[0].speechId == id then [a[0]] else [];
      assert (a + b)[0] == a[0];
      assert (a + b)[1..] == a[1..] + b;
      assert RowsOf(a + b, id) == h + RowsOf(a[1..] + b, id);
      assert RowsOf(a, id) == h + RowsOf(a[1..], id);
      RowsOfConcat(a[1..], b, id);
      assert h + (RowsOf(a[1..], id) + RowsOf(b, id)) == (h + RowsOf(a[1..], id)) + RowsOf(b, id);
    }
  }

  lemma {:induction false} RowsOfAll(rows: seq<ContribRow>, id: int)
    requires forall x :: x in rows ==> x.speechId == id
    ensures RowsOf(rows, id) == rows
  {
    if rows != [] {
      RowsOfAll(rows[1..], id);
    }
  }

  lemma {:induction false} RowsOfNone(rows: seq<ContribRow>, id: int)
    requires forall x :: x in rows ==> x.speechId != id
    ensures RowsOf(rows, id) == []
  {
    if rows != [] {
      RowsOfNone(rows[1..], id);
    }
  }

  /** Every row of block `k` carries id `ids[k]`. */
  predicate Tagged(blocks: seq<seq<ContribRow>>, ids: seq<int>)
  {
    |blocks| == |ids| &&
    forall k, r :: 0 <= k < |blocks| && r in blocks[k] ==> r.speechId == ids[k]
  }

  lemma DocBlocksTagged(ids: seq<int>, features: seq<seq<real>>, coefs: seq<real>,
                        names: seq<FeatureName>, intercept: real)
    requires |ids| == |features| && Conformant(features, coefs, names)
    ensures Tagged(DocBlocks(ids, features, coefs, names, intercept), ids)
  {
    var blocks := DocBlocks(ids, features, coefs, names, intercept);
    forall k | 0 <= k < |blocks| ensures forall r: ContribRow :: r in blocks[k] ==> r.speechId == ids[k] {
      DocRowsIds(ids[k], ContribVector(features[k], coefs), names, intercept);
    }
  }

  /** Selecting an id that none of the first `m` blocks carries gives no rows. */
  lemma {:induction false} FlattenMissing(blocks: seq<seq<ContribRow>>, ids: seq<int>, m: nat, id: int)
    requires Tagged(blocks, ids) && m <= |blocks|
    requires forall p :: 0 <= p < m ==> ids[p] != id
    ensures RowsOf(Flatten(blocks, m), id) == []
  {
    if m > 0 {
      FlattenMissing(blocks, ids, m - 1, id);
      RowsOfNone(blocks[m - 1], id);
      RowsOfConcat(Flatten(blocks, m - 1), blocks[m - 1], id);
    }
  }

  /** With distinct ids, selecting the id of block `i` from the first `m` blocks gives exactly
      that block. */
  lemma {:induction false} FlattenSelect(blocks: seq<seq<ContribRow>>, ids: seq<int>, m: nat, i: nat)
    requires Tagged(blocks, ids)
    requires forall p, q :: 0 <= p < q < |ids| ==> ids[p] != ids[q]
    requires i < m <= |blocks|
    ensures RowsOf(Flatten(blocks, m), ids[i]) == blocks[i]
  {
    RowsOfConcat(Flatten(blocks, m - 1), blocks[m - 1], ids[i]);
    if i == m - 1 {
      FlattenMissing(blocks, ids, m - 1, ids[i]);
      RowsOfAll(blocks[i], ids[i]);
      assert [] + blocks[i] == blocks[i];
    } else {
      FlattenSelect(blocks, ids, m - 1, i);
      assert ids[m - 1] != ids[i];
      RowsOfNone(blocks[m - 1], ids[i]);
      assert blocks[i] + [] == blocks[i];
    }
  }

  /** With distinct speech ids, selecting a speech's rows from the whole table gives exactly the
      rows that speech contributed. */
  lemma TableRowsOf(ids: seq<int>, features: seq<seq<real>>, coefs: seq<real>,
                    names: seq<FeatureName>, intercept: real, i: nat)
    requires |ids| == |features| && Conformant(features, coefs, names)
    requires forall p, q :: 0 <= p < q < |ids| ==> ids[p] != ids[q]
    requires i < |ids|
    ensures RowsOf(ContribTable(ids, features, coefs, names, intercept), ids[i])
         == DocRows(ids[i], ContribVector(features[i], coefs), names, intercept)
  {
    DocBlocksTagged(ids, features, coefs, names, intercept);
    FlattenSelect(DocBlocks(ids, features, coefs, names, intercept), ids, |ids|, i);
  }

  /** Selecting an id that no document has gives no rows. */
  lemma TableRowsOfMissing(ids: seq<int>, features: seq<seq<real>>, coefs: seq<real>,
                           names: seq<FeatureName>, intercept: real, id: int)
    requires |ids| == |features| && Conformant(features, coefs, names)
    requires id !in ids
    ensures RowsOf(ContribTable(ids, features, coefs, names, intercept), id) == []
  {
    DocBlocksTagged(ids, features, coefs, names, intercept);
    FlattenMissing(DocBlocks(ids, features, coefs, names, intercept), ids, |ids|, id);
  }

  // ---------------------------------------------------------------------------------------
  // choose_top_feature

  /** The rows of speech `id` that are not intercept rows, in table order. */
  function Candidates(rows: seq<ContribRow>, id: int): (r: seq<ContribRow>)
    ensures forall x :: x in r <==> x in rows && x.speechId == id && x.featureType != Intercept
  {
    if rows == [] then []
    else
      (if rows[0].speechId == id && rows[0].featureType != Intercept then [rows[0]] else [])
        + Candidates(rows[1..], id)
  }

  /** `x` sorts strictly before `y`: descending by value when `predicted`, ascending otherwise. */
  predicate Before(x: ContribRow, y: ContribRow, predicted: bool)
  {
    if predicted then x.value > y.value else x.value < y.value
  }

  /** The row a sort by value puts first; among equal values, the earliest. */
  function Extreme(cs: seq<ContribRow>, predicted: bool): (r: ContribRow)
    requires |cs| > 0
    ensures r in cs
    ensures forall x :: x in cs ==> !Before(x, r, predicted)
  {
    if |cs| == 1 then cs[0]
    else
      var best := Extreme(cs[1..], predicted);
      assert forall x :: x in cs ==> x == cs[0] || x in cs[1..];
      if Before(best, cs[0], predicted) then best else cs[0]
  }

  /** choose_top_feature: the short name and type of the speech's non-intercept row with the
      largest value when `predicted` holds and the smallest otherwise; None where the source's
      indexing of an empty frame fails. */
  function ChooseTopFeature(speechId: int, predicted: bool, rows: seq<ContribRow>): (r: Option<(string, FeatureType)>)
    ensures r.None? <==> forall x :: x in rows ==> x.speechId != speechId || x.featureType == Intercept
    ensures r.Some? ==> exists x :: (x in rows && x.speechId == speechId && x.featureType != Intercept &&
      r.value == (x.shortName, x.featureType) &&
      forall y :: y in rows && y.speechId == speechId && y.featureType != Intercept ==>
        (if predicted then y.value <= x.value else y.value >= x.value))
    ensures r.Some? ==> r.value.1 != Intercept
  {
    var cs := Candidates(rows, speechId);
    if cs == [] then None
    else
      var x := Extreme(cs, predicted);
      Some((x.shortName, x.featureType))
  }
}
