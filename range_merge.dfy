/** The range merge of add_spans in part-of-speech mode: the matched ranges are sorted, then a
    range that starts strictly inside the last output range is merged into it. As written, the
    merged range takes the new range's end; the corrected merge takes the larger end. */
module RangeMerge {

  /** A range `(start, end)`, end exclusive. */
  type Range = (int, int)

  /** Python's ordering of pairs. */
  predicate LexLeq(x: Range, y: Range)
  {
    x.0 < y.0 || (x.0 == y.0 && x.1 <= y.1)
  }

  predicate SortedRanges(rs: seq<Range>)
  {
    forall i, j :: 0 <= i < j < |rs| ==> LexLeq(rs[i], rs[j])
  }

  predicate WellFormed(rs: seq<Range>)
  {
    forall i :: 0 <= i < |rs| ==> rs[i].0 <= rs[i].1
  }

  /** Each range ends at or before the next one starts; touching ranges are allowed. */
  predicate Separated(rs: seq<Range>)
  {
    WellFormed(rs) && forall k :: 0 <= k < |rs| - 1 ==> rs[k].1 <= rs[k + 1].0
  }

  /** Position `x` lies in one of the ranges. */
  predicate Covered(rs: seq<Range>, x: int)
  {
    exists r :: r in rs && r.0 <= x < r.1
  }

  function Last(rs: seq<Range>): Range
    requires |rs| > 0
  {
    rs[|rs| - 1]
  }

  // ---------------------------------------------------------------------------------------
  // ranges.sort()

  /** Insertion of `x` before the first range it sorts at or before. */
  function Insert(x: Range, rs: seq<Range>): (r: seq<Range>)
    ensures multiset(r) == multiset(rs) + multiset{x}
    ensures |r| == |rs| + 1
  {
    if rs == [] || LexLeq(x, rs[0]) then [x] + rs
    else
      assert rs == [rs[0]] + rs[1..];
      [rs[0]] + Insert(x, rs[1..])
  }

  lemma {:induction false} InsertSorted(x: Range, rs: seq<Range>)
    requires SortedRanges(rs)
    ensures SortedRanges(Insert(x, rs))
  {
    if rs != [] && !LexLeq(x, rs[0]) {
      InsertSorted(x, rs[1..]);
      InsertAbove(x, rs[0], rs[1..]);
      SortedCons(rs[0], Insert(x, rs[1..]));
    }
  }

  /** A bound below the inserted range and below every range stays below the result. */
  lemma InsertAbove(x: Range, lo: Range, rs: seq<Range>)
    requires LexLeq(lo, x)
    requires forall i :: 0 <= i < |rs| ==> LexLeq(lo, rs[i])
    ensures forall y :: y in Insert(x, rs) ==> LexLeq(lo, y)
  {
    forall y | y in Insert(x, rs) ensures LexLeq(lo, y) {
      assert y in multiset(Insert(x, rs));
      if y != x {
        assert y in multiset(rs);
      }
    }
  }

  lemma SortedCons(a: Range, t: seq<Range>)
    requires SortedRanges(t)
    requires forall y :: y in t ==> LexLeq(a, y)
    ensures SortedRanges([a] + t)
  {
    var r := [a] + t;
    forall i, j | 0 <= i < j < |r| ensures LexLeq(r[i], r[j]) {
      if i == 0 {
        assert r[j] in t;
      } else {
        assert r[i] == t[i - 1] && r[j] == t[j - 1];
      }
    }
  }

  /** `list.sort()` on pairs: sorted lexicographically, the same ranges. */
  function SortRanges(rs: seq<Range>): (r: seq<Range>)
    ensures SortedRanges(r)
    ensures multiset(r) == multiset(rs)
  {
    if rs == [] then []
    else
      assert rs == [rs[0]] + rs[1..];
      var sorted := SortRanges(rs[1..]);
      InsertSorted(rs[0], sorted);
      Insert(rs[0], sorted)
  }

  /** Sorting already sorted ranges changes nothing. */
  lemma {:induction false} SortSorted(rs: seq<Range>)
    requires SortedRanges(rs)
    ensures SortRanges(rs) == rs
  {
    if rs != [] {
      SortSorted(rs[1..]);
    }
  }

  lemma SortWellFormed(rs: seq<Range>)
    requires WellFormed(rs)
    ensures WellFormed(SortRanges(rs))
  {
    var r := SortRanges(rs);
    forall i | 0 <= i < |r| ensures r[i].0 <= r[i].1 {
      assert r[i] in multiset(r);
      assert r[i] in multiset(rs);
    }
  }

  // ---------------------------------------------------------------------------------------
  // The merge as written

  /** One iteration of the merge loop as written: a range starting strictly before the last
      output range's end replaces that range's end with its own. */
  function MergeStep(spans: seq<Range>, r: Range): seq<Range>
  {
    if spans != [] && r.0 < Last(spans).1 then spans[..|spans| - 1] + [(Last(spans).0, r.1)]
    else spans + [r]
  }

  /** The loop as written over all ranges, in order. */
  function MergeAll(rs: seq<Range>): seq<Range>
  {
    if rs == [] then [] else MergeStep(MergeAll(rs[..|rs| - 1]), Last(rs))
  }

  /** The sort and merge loop of add_spans, as written. */
  method MergeRanges(ranges: seq<Range>) returns (spans: seq<Range>)
    ensures spans == MergeAll(SortRanges(ranges))
  {
    var sorted := SortRanges(ranges);
    spans := MergeLoop(sorted);
  }

  /** The merge loop as written, over ranges in the order given. */
  method MergeLoop(sorted: seq<Range>) returns (spans: seq<Range>)
    ensures spans == MergeAll(sorted)
  {
    spans := [];
    var i := 0;
    while i < |sorted|
      invariant 0 <= i <= |sorted|
      invariant spans == MergeAll(sorted[..i])
    {
      spans := MergeInto(spans, sorted[i]);
      MergeAllPrefix(sorted, i);
      i := i + 1;
    }
    assert sorted[..i] == sorted;
  }

  /** The body of the merge loop as written. */
  method MergeInto(spans: seq<Range>, newRange: Range) returns (out: seq<Range>)
    ensures out == MergeStep(spans, newRange)
  {
    if |spans| > 0 && newRange.0 < spans[|spans| - 1].1 {
      out := spans[..|spans| - 1] + [(spans[|spans| - 1].0, newRange.1)];
    } else {
      out := spans + [newRange];
    }
  }

  lemma MergeAllPrefix(rs: seq<Range>, i: nat)
    requires i < |rs|
    ensures MergeAll(rs[..i + 1]) == MergeStep(MergeAll(rs[..i]), rs[i])
  {
    assert rs[..i + 1][..i] == rs[..i];
  }

  /** The merge as written still yields separated ranges, and its last range starts at or
      before the last input range. */
  lemma {:induction false} MergeAllSeparated(rs: seq<Range>)
    requires SortedRanges(rs) && WellFormed(rs)
    ensures Separated(MergeAll(rs))
    ensures rs != [] ==> MergeAll(rs) != [] && Last(MergeAll(rs)).0 <= Last(rs).0
  {
    if rs != [] {
      var init := rs[..|rs| - 1];
      var r := Last(rs);
      MergeAllSeparated(init);
      var sp := MergeAll(init);
      if sp != [] && r.0 < Last(sp).1 {
        var out := MergeStep(sp, r);
        assert init[|init| - 1] == rs[|rs| - 2];
        SeparatedReplaceLast(sp, (Last(sp).0, r.1));
      } else {
        SeparatedAppend(sp, r);
      }
    }
  }

  lemma SeparatedReplaceLast(sp: seq<Range>, x: Range)
    requires Separated(sp) && |sp| > 0 && x.0 == Last(sp).0 && x.0 <= x.1
    ensures Separated(sp[..|sp| - 1] + [x])
  {
    var out := sp[..|sp| - 1] + [x];
    forall k | 0 <= k < |out| - 1 ensures out[k].1 <= out[k + 1].0 {
      assert out[k] == sp[k];
      if k + 1 < |sp| - 1 { assert out[k + 1] == sp[k + 1]; }
    }
  }

  lemma SeparatedAppend(sp: seq<Range>, r: Range)
    requires Separated(sp) && r.0 <= r.1 && (sp != [] ==> Last(sp).1 <= r.0)
    ensures Separated(sp + [r])
  {
  }

  /** A range nested strictly inside its predecessor truncates the merged range: position
      `b.1` is covered by the input but not by the output. */
  lemma NestedRangeTruncated(a: Range, b: Range)
    requires a.0 < b.0 <= b.1 < a.1
    ensures MergeAll(SortRanges([a, b])) == [(a.0, b.1)]
    ensures Covered([a, b], b.1) && !Covered([(a.0, b.1)], b.1)
  {
    var rs: seq<Range> := [a, b];
    assert SortedRanges(rs);
    SortSorted(rs);
    assert MergeAll([a]) == [a] by {
      assert [a][..0] == [];
    }
    assert MergeAll(rs) == MergeStep([a], b) by {
      assert rs[..1] == [a] && Last(rs) == b;
    }
    assert a in rs;
  }

  // ---------------------------------------------------------------------------------------
  // The corrected merge

  /** One iteration of the corrected merge loop: the merged range keeps the larger end. */
  function MergeStepMax(spans: seq<Range>, r: Range): seq<Range>
  {
    if spans != [] && r.0 < Last(spans).1 then
      spans[..|spans| - 1] + [(Last(spans).0, if r.1 > Last(spans).1 then r.1 else Last(spans).1)]
    else spans + [r]
  }

  function MergeAllMax(rs: seq<Range>): seq<Range>
  {
    if rs == [] then [] else MergeStepMax(MergeAllMax(rs[..|rs| - 1]), Last(rs))
  }

  /** The sort and the corrected merge loop. */
  method MergeSpans(ranges: seq<Range>) returns (spans: seq<Range>)
    ensures spans == MergeAllMax(SortRanges(ranges))
  {
    var sorted := SortRanges(ranges);
    spans := MergeLoopMax(sorted);
  }

  /** The corrected merge loop, over ranges in the order given. */
  method MergeLoopMax(sorted: seq<Range>) returns (spans: seq<Range>)
    ensures spans == MergeAllMax(sorted)
  {
    spans := [];
    var i := 0;
    while i < |sorted|
      invariant 0 <= i <= |sorted|
      invariant spans == MergeAllMax(sorted[..i])
    {
      spans := MergeIntoMax(spans, sorted[i]);
      MergeAllMaxPrefix(sorted, i);
      i := i + 1;
    }
    assert sorted[..i] == sorted;
  }

  /** The body of the corrected merge loop. */
  method MergeIntoMax(spans: seq<Range>, newRange: Range) returns (out: seq<Range>)
    ensures out == MergeStepMax(spans, newRange)
  {
    if |spans| > 0 && newRange.0 < spans[|spans| - 1].1 {
      var last := spans[|spans| - 1];
      var end := if newRange.1 > last.1 then newRange.1 else last.1;
      out := spans[..|spans| - 1] + [(last.0, end)];
    } else {
      out := spans + [newRange];
    }
  }

  lemma MergeAllMaxPrefix(rs: seq<Range>, i: nat)
    requires i < |rs|
    ensures MergeAllMax(rs[..i + 1]) == MergeStepMax(MergeAllMax(rs[..i]), rs[i])
  {
    assert rs[..i + 1][..i] == rs[..i];
  }

  lemma CoveredAppend(sp: seq<Range>, r: Range, x: int)
    ensures Covered(sp + [r], x) <==> Covered(sp, x) || r.0 <= x < r.1
  {
    if r.0 <= x < r.1 {
      assert r in sp + [r];
    }
    if Covered(sp, x) {
      var q :| q in sp && q.0 <= x < q.1;
      assert q in sp + [r];
    }
  }

  /** The corrected merge of sorted, well-formed ranges yields separated ranges covering exactly
      the positions the input covers. */
  lemma {:induction false} MergeAllMaxCorrect(rs: seq<Range>)
    requires SortedRanges(rs) && WellFormed(rs)
    ensures Separated(MergeAllMax(rs))
    ensures forall x :: Covered(MergeAllMax(rs), x) <==> Covered(rs, x)
    ensures rs != [] ==> MergeAllMax(rs) != [] && Last(MergeAllMax(rs)).0 <= Last(rs).0
  {
    if rs != [] {
      var init := rs[..|rs| - 1];
      var r := Last(rs);
      assert rs == init + [r];
      MergeAllMaxCorrect(init);
      var sp := MergeAllMax(init);
      if init != [] {
        assert init[|init| - 1] == rs[|rs| - 2];
      }
      if sp != [] && r.0 < Last(sp).1 {
        MergeIntoLast(init, r, sp);
      } else {
        MergeAppend(init, r, sp);
      }
    }
  }

  /** The step that widens the last output range. */
  lemma MergeIntoLast(init: seq<Range>, r: Range, sp: seq<Range>)
    requires Separated(sp) && sp != [] && r.0 < Last(sp).1 && r.0 <= r.1
    requires Last(sp).0 <= r.0
    requires forall x :: Covered(sp, x) <==> Covered(init, x)
    ensures Separated(MergeStepMax(sp, r))
    ensures forall x :: Covered(MergeStepMax(sp, r), x) <==> Covered(init + [r], x)
    ensures Last(MergeStepMax(sp, r)).0 <= r.0
  {
    var l := Last(sp);
    var m := (l.0, if r.1 > l.1 then r.1 else l.1);
    SeparatedReplaceLast(sp, m);
    var front := sp[..|sp| - 1];
    assert sp == front + [l];
    forall x ensures Covered(front + [m], x) <==> Covered(init + [r], x) {
      CoveredAppend(front, m, x);
      CoveredAppend(front, l, x);
      CoveredAppend(init, r, x);
    }
  }

  /** The step that appends the range. */
  lemma MergeAppend(init: seq<Range>, r: Range, sp: seq<Range>)
    requires Separated(sp) && r.0 <= r.1 && !(sp != [] && r.0 < Last(sp).1)
    requires forall x :: Covered(sp, x) <==> Covered(init, x)
    ensures Separated(MergeStepMax(sp, r))
    ensures forall x :: Covered(MergeStepMax(sp, r), x) <==> Covered(init + [r], x)
    ensures Last(MergeStepMax(sp, r)).0 <= r.0
  {
    SeparatedAppend(sp, r);
    forall x ensures Covered(sp + [r], x) <==> Covered(init + [r], x) {
      CoveredAppend(sp, r, x);
      CoveredAppend(init, r, x);
    }
  }

  /** Separated ranges are sorted. */
  lemma SeparatedSorted(rs: seq<Range>)
    requires Separated(rs)
    ensures SortedRanges(rs)
  {
    forall i, j | 0 <= i < j < |rs| ensures LexLeq(rs[i], rs[j]) {
      SeparatedOrdered(rs, i, j);
    }
  }

  lemma {:induction false} SeparatedOrdered(rs: seq<Range>, i: nat, j: nat)
    requires Separated(rs) && i < j < |rs|
    ensures rs[i].1 <= rs[j].0
    decreases j - i
  {
    if i + 1 < j {
      SeparatedOrdered(rs, i + 1, j);
    }
  }

  /** The prefix of separated ranges without the last one is separated. */
  lemma SeparatedInit(rs: seq<Range>)
    requires Separated(rs) && rs != []
    ensures Separated(rs[..|rs| - 1])
  {
    var init := rs[..|rs| - 1];
    forall k | 0 <= k < |init| - 1 ensures init[k].1 <= init[k + 1].0 {
      assert init[k] == rs[k] && init[k + 1] == rs[k + 1];
    }
  }

  /** The merge as written leaves separated ranges as they are: each range starts at or after
      the previous one's end, so every step appends. */
  lemma {:induction false} MergeAllKeepsSeparated(rs: seq<Range>)
    requires Separated(rs)
    ensures MergeAll(rs) == rs
  {
    if rs != [] {
      var init := rs[..|rs| - 1];
      SeparatedInit(rs);
      MergeAllKeepsSeparated(init);
      if init != [] {
        assert Last(init) == rs[|rs| - 2];
      }
      assert rs == init + [Last(rs)];
    }
  }

  /** Sorting and merging separated ranges as written changes nothing. */
  lemma MergeRangesSeparated(rs: seq<Range>)
    requires Separated(rs)
    ensures MergeAll(SortRanges(rs)) == rs
  {
    SeparatedSorted(rs);
    SortSorted(rs);
    MergeAllKeepsSeparated(rs);
  }

  /** The sort-and-merge as written is idempotent: its output is separated, so a second pass
      keeps it. */
  lemma MergeRangesIdempotent(rs: seq<Range>)
    requires WellFormed(rs)
    ensures MergeAll(SortRanges(MergeAll(SortRanges(rs)))) == MergeAll(SortRanges(rs))
  {
    var sorted := SortRanges(rs);
    SortWellFormed(rs);
    MergeAllSeparated(sorted);
    MergeRangesSeparated(MergeAll(sorted));
  }

  /** Merging separated ranges with the corrected merge changes nothing. */
  lemma {:induction false} MergeAllMaxSeparated(rs: seq<Range>)
    requires Separated(rs)
    ensures MergeAllMax(rs) == rs
  {
    if rs != [] {
      var init := rs[..|rs| - 1];
      SeparatedInit(rs);
      MergeAllMaxSeparated(init);
      assert rs == init + [Last(rs)];
    }
  }

  /** The corrected sort-and-merge is idempotent. */
  lemma MergeSpansIdempotent(rs: seq<Range>)
    requires WellFormed(rs)
    ensures MergeAllMax(SortRanges(MergeAllMax(SortRanges(rs)))) == MergeAllMax(SortRanges(rs))
  {
    var sorted := SortRanges(rs);
    SortWellFormed(rs);
    MergeAllMaxCorrect(sorted);
    var out := MergeAllMax(sorted);
    SeparatedSorted(out);
    SortSorted(out);
    MergeAllMaxSeparated(out);
  }

  /** Where no range ends before an earlier one, the merge as written and the corrected merge
      agree. */
  lemma {:induction false} MergeAllAgrees(rs: seq<Range>)
    requires forall i, j :: 0 <= i < j < |rs| ==> rs[i].1 <= rs[j].1
    ensures MergeAll(rs) == MergeAllMax(rs)
    ensures rs != [] ==> MergeAll(rs) != [] && Last(MergeAll(rs)).1 == Last(rs).1
  {
    if rs != [] {
      var init := rs[..|rs| - 1];
      assert forall i :: 0 <= i < |init| ==> init[i] == rs[i];
      MergeAllAgrees(init);
      if init != [] {
        assert Last(init) == rs[|rs| - 2];
      }
      AgreeStep(MergeAll(init), Last(rs));
    }
  }

  /** One step agrees when the last output range ends at or before the new range. */
  lemma AgreeStep(sp: seq<Range>, r: Range)
    requires sp != [] ==> Last(sp).1 <= r.1
    ensures MergeStep(sp, r) == MergeStepMax(sp, r) && Last(MergeStep(sp, r)).1 == r.1
  {
  }

  /** Sorting and merging separated ranges with the corrected merge changes nothing. */
  lemma MergeSpansSeparated(rs: seq<Range>)
    requires Separated(rs)
    ensures MergeAllMax(SortRanges(rs)) == rs
  {
    SeparatedSorted(rs);
    SortSorted(rs);
    MergeAllMaxSeparated(rs);
  }

  /** Touching ranges stay separate: the merge as written only joins a range that starts
      strictly before the last one ends. */
  lemma TouchingKeptApart(a: Range, b: Range)
    requires a.0 <= a.1 == b.0 <= b.1
    ensures MergeAll(SortRanges([a, b])) == [a, b]
  {
    TouchingSeparated(a, b);
    MergeRangesSeparated([a, b]);
  }

  /** Touching ranges stay separate under the corrected merge too. */
  lemma TouchingKeptApartMax(a: Range, b: Range)
    requires a.0 <= a.1 == b.0 <= b.1
    ensures MergeAllMax(SortRanges([a, b])) == [a, b]
  {
    TouchingSeparated(a, b);
    MergeSpansSeparated([a, b]);
  }

  lemma TouchingSeparated(a: Range, b: Range)
    requires a.0 <= a.1 == b.0 <= b.1
    ensures Separated([a, b])
  {
  }
}
