/** The game's server side: the `/values/` query over the contribution and coefficient tables
    (type filter, search on the last `:`-field, stable sort by one of four keys, a 1-based
    window and a magnitude), and the two score counters that every new round updates. */
module Game {
  import opened Text
  import opened Features
  import opened Contributions

  /** A row of the coefficient table: long name, value, feature type. */
  datatype CoefRow = CoefRow(longName: string, value: real, featureType: FeatureType)

  /** A `(long_name, value)` pair the query works on. */
  type Pair = (string, real)

  datatype Order = DescMag | AscMag | DescVal | AscVal

  /** The lookups that raise KeyError in the source. */
  datatype QueryError = UnknownType(name: string) | UnknownOrder(name: string)

  datatype Result<T> = Ok(value: T) | Err(error: QueryError)

  /** The JSON body of a successful query. */
  datatype Response = Response(featureNames: seq<string>, values: seq<real>, mag: real)

  /** The string the feature-type column holds. */
  function TypeName(t: FeatureType): string
  {
    match t
    case Word => "word"
    case Pos => "pos"
    case Intercept => "intercept"
  }

  // ---------------------------------------------------------------------------------------
  // The type filter

  /** `type_dict[feature_type]`: the three values bound to `feature_type IN (?, ?, ?)`. */
  function TypeSlots(featureType: string): Result<seq<string>>
  {
    if featureType == "all" then Ok(["word", "pos", "intercept"])
    else if featureType == "word" then Ok(["word", "", ""])
    else if featureType == "pos" then Ok(["pos", "", ""])
    else Err(UnknownType(featureType))
  }

  /** A row type passes `feature_type IN (?, ?, ?)`. */
  predicate Admits(slots: seq<string>, t: FeatureType)
  {
    TypeName(t) in slots
  }

  /** 'all' admits every type, intercept included; 'word' and 'pos' admit only their own type
      (the empty padding slots match no row); any other name is a lookup failure. */
  lemma TypeFilter(featureType: string, t: FeatureType)
    ensures TypeSlots(featureType).Err? <==> featureType != "all" && featureType != "word" && featureType != "pos"
    ensures TypeSlots(featureType).Err? ==> TypeSlots(featureType).error == UnknownType(featureType)
    ensures featureType == "all" ==> Admits(TypeSlots(featureType).value, t)
    ensures featureType == "word" ==> (Admits(TypeSlots(featureType).value, t) <==> t == Word)
    ensures featureType == "pos" ==> (Admits(TypeSlots(featureType).value, t) <==> t == Pos)
  {
    assert TypeName(t) != "";
    if featureType == "word" && t != Word {
      assert TypeName(t)[0] != 'w';
    }
    if featureType == "pos" && t != Pos {
      assert TypeName(t)[0] != 'p';
    }
  }

  /** The SELECT on the contribution table: the speech's rows of an admitted type, in table
      order. */
  function ContribResults(rows: seq<ContribRow>, speechId: int, slots: seq<string>): seq<Pair>
  {
    if rows == [] then []
    else
      (if rows[0].speechId == speechId && Admits(slots, rows[0].featureType)
       then [(rows[0].longName, rows[0].value)] else [])
      + ContribResults(rows[1..], speechId, slots)
  }

  /** The SELECT on the coefficient table: the rows of an admitted type, in table order. */
  function CoefResults(rows: seq<CoefRow>, slots: seq<string>): seq<Pair>
  {
    if rows == [] then []
    else
      (if Admits(slots, rows[0].featureType) then [(rows[0].longName, rows[0].value)] else [])
      + CoefResults(rows[1..], slots)
  }

  lemma {:induction false} ContribResultsMembers(rows: seq<ContribRow>, speechId: int, slots: seq<string>)
    ensures forall p :: p in ContribResults(rows, speechId, slots) <==>
      exists x :: x in rows && x.speechId == speechId && Admits(slots, x.featureType) &&
                  p == (x.longName, x.value)
  {
    if rows != [] {
      ContribResultsMembers(rows[1..], speechId, slots);
      assert rows == [rows[0]] + rows[1..];
    }
  }

  lemma {:induction false} CoefResultsMembers(rows: seq<CoefRow>, slots: seq<string>)
    ensures forall p :: p in CoefResults(rows, slots) <==>
      exists x :: x in rows && Admits(slots, x.featureType) && p == (x.longName, x.value)
  {
    if rows != [] {
      CoefResultsMembers(rows[1..], slots);
      assert rows == [rows[0]] + rows[1..];
    }
  }

  /** The table the query reads: the contribution table for "contribs", the coefficient table
      for any other name. */
  function TableResults(table: string, speechId: int, slots: seq<string>,
                        contribs: seq<ContribRow>, coefs: seq<CoefRow>): seq<Pair>
  {
    if table == "contribs" then ContribResults(contribs, speechId, slots)
    else CoefResults(coefs, slots)
  }

  // ---------------------------------------------------------------------------------------
  // The search

  /** `long_name.split(":")[-1]`: the text after the last colon. */
  function LastField(name: string): string
  {
    var parts := Split(name, ":");
    parts[|parts| - 1]
  }

  /** A name without a colon is searched whole, and what is searched holds no colon. */
  lemma LastFieldFacts(name: string)
    ensures !Contains(LastField(name), ":")
    ensures !Contains(name, ":") ==> LastField(name) == name
  {
    var parts := Split(name, ":");
    SplitPiecesFree(name, ":");
    assert parts[|parts| - 1] in parts;
  }

  /** The search matches: the search text occurs in the last field, ignoring case. */
  predicate Matches(name: string, search: string)
  {
    Contains(LowerString(LastField(name)), LowerString(search))
  }

  /** The empty search matches every name. */
  lemma EmptySearchMatches(name: string)
    ensures Matches(name, "")
  {
    assert OccursAt(LowerString(LastField(name)), LowerString(""), 0);
  }

  /** A search for a different-case spelling of the whole last field matches. */
  lemma FieldMatchesItself(name: string, search: string)
    requires EqualsIgnoreCase(search, LastField(name))
    ensures Matches(name, search)
  {
    var f := LowerString(LastField(name));
    assert LowerString(search) == f;
    assert OccursAt(f, LowerString(search), 0);
  }

  /** The search comprehension. */
  function Searched(pairs: seq<Pair>, search: string): seq<Pair>
  {
    if pairs == [] then []
    else (if Matches(pairs[0].0, search) then [pairs[0]] else []) + Searched(pairs[1..], search)
  }

  lemma {:induction false} SearchedMembers(pairs: seq<Pair>, search: string)
    ensures forall p :: p in Searched(pairs, search) <==> p in pairs && Matches(p.0, search)
  {
    if pairs != [] {
      SearchedMembers(pairs[1..], search);
      assert pairs == [pairs[0]] + pairs[1..];
    }
  }

  /** The empty search keeps every pair, in order. */
  lemma {:induction false} EmptySearchKeepsAll(pairs: seq<Pair>)
    ensures Searched(pairs, "") == pairs
  {
    if pairs != [] {
      EmptySearchMatches(pairs[0].0);
      EmptySearchKeepsAll(pairs[1..]);
      assert pairs == [pairs[0]] + pairs[1..];
    }
  }

  // ---------------------------------------------------------------------------------------
  // The sort

  /** `orderDict[order]`. */
  function OrderOf(order: string): (r: Result<Order>)
  {
    if order == "descMag" then Ok(DescMag)
    else if order == "ascMag" then Ok(AscMag)
    else if order == "descVal" then Ok(DescVal)
    else if order == "ascVal" then Ok(AscVal)
    else Err(UnknownOrder(order))
  }

  function Abs(x: real): real { if x < 0.0 then -x else x }

  /** The sort key: `abs(pair[1])` for the magnitude orders, `pair[1]` for the value orders. */
  function Key(p: Pair, o: Order): real
  {
    if o == DescMag || o == AscMag then Abs(p.1) else p.1
  }

  predicate Descending(o: Order) { o == DescMag || o == DescVal }

  /** `x` belongs strictly before `y` in order `o`. */
  predicate Precedes(x: Pair, y: Pair, o: Order)
  {
    if Descending(o) then Key(x, o) > Key(y, o) else Key(x, o) < Key(y, o)
  }

  function Last(s: seq<Pair>): Pair
    requires |s| > 0
  {
    s[|s| - 1]
  }

  /** Insertion of `x` after every element it does not strictly precede, found from the right. */
  function InsertBy(x: Pair, t: seq<Pair>, o: Order): seq<Pair>
  {
    if t == [] || !Precedes(x, Last(t), o) then t + [x]
    else InsertBy(x, t[..|t| - 1], o) + [Last(t)]
  }

  /** The stable sort of `list.sort(key=…, reverse=…)`. */
  function SortBy(s: seq<Pair>, o: Order): seq<Pair>
  {
    if s == [] then [] else InsertBy(Last(s), SortBy(s[..|s| - 1], o), o)
  }

  lemma {:induction false} InsertByPermutes(x: Pair, t: seq<Pair>, o: Order)
    ensures multiset(InsertBy(x, t, o)) == multiset(t) + multiset{x}
  {
    if t != [] && Precedes(x, Last(t), o) {
      InsertByPermutes(x, t[..|t| - 1], o);
      assert t == t[..|t| - 1] + [Last(t)];
    }
  }

  /** The sort keeps exactly the pairs it is given. */
  lemma {:induction false} SortByPermutes(s: seq<Pair>, o: Order)
    ensures multiset(SortBy(s, o)) == multiset(s)
  {
    if s != [] {
      SortByPermutes(s[..|s| - 1], o);
      InsertByPermutes(Last(s), SortBy(s[..|s| - 1], o), o);
      assert s == s[..|s| - 1] + [Last(s)];
    }
  }

  predicate SortedBy(s: seq<Pair>, o: Order)
  {
    forall i, j :: 0 <= i < j < |s| ==> !Precedes(s[j], s[i], o)
  }

  lemma {:induction false} InsertBySorted(x: Pair, t: seq<Pair>, o: Order)
    requires SortedBy(t, o)
    ensures SortedBy(InsertBy(x, t, o), o)
  {
    if t == [] || !Precedes(x, Last(t), o) {
      SortedSnoc(t, x, o);
    } else {
      var init := t[..|t| - 1];
      SortedInit(t, o);
      InsertBySorted(x, init, o);
      InsertByPermutes(x, init, o);
      var r := InsertBy(x, init, o);
      LastAfterAll(t, x, r, o);
      SortedSnoc(r, Last(t), o);
    }
  }

  lemma SortedInit(t: seq<Pair>, o: Order)
    requires t != [] && SortedBy(t, o)
    ensures SortedBy(t[..|t| - 1], o)
  {
    var init := t[..|t| - 1];
    forall i, j | 0 <= i < j < |init| ensures !Precedes(init[j], init[i], o) {
      assert init[i] == t[i] && init[j] == t[j];
    }
  }

  /** The last pair of a sorted `t` follows none of the pairs before it, nor `x`. */
  lemma LastAfterAll(t: seq<Pair>, x: Pair, r: seq<Pair>, o: Order)
    requires t != [] && SortedBy(t, o) && Precedes(x, Last(t), o)
    requires multiset(r) == multiset(t[..|t| - 1]) + multiset{x}
    ensures forall y :: y in r ==> !Precedes(Last(t), y, o)
  {
    var init := t[..|t| - 1];
    forall y | y in r ensures !Precedes(Last(t), y, o) {
      assert y in multiset(r);
      if y != x {
        assert y in multiset(init);
        var k :| 0 <= k < |init| && init[k] == y;
        assert t[k] == y;
      }
    }
  }

  /** Appending an element that no earlier element follows strictly keeps the order. */
  lemma SortedSnoc(t: seq<Pair>, x: Pair, o: Order)
    requires SortedBy(t, o)
    requires forall y :: y in t ==> !Precedes(x, y, o)
    ensures SortedBy(t + [x], o)
  {
    var r := t + [x];
    forall i, j | 0 <= i < j < |r| ensures !Precedes(r[j], r[i], o) {
      if j == |t| {
        assert r[i] in t;
      } else {
        assert r[i] == t[i] && r[j] == t[j];
      }
    }
  }

  /** The sort orders the pairs by key, descending or ascending. */
  lemma {:induction false} SortBySorted(s: seq<Pair>, o: Order)
    ensures SortedBy(SortBy(s, o), o)
  {
    if s != [] {
      SortBySorted(s[..|s| - 1], o);
      InsertBySorted(Last(s), SortBy(s[..|s| - 1], o), o);
    }
  }

  /** The pairs whose key is `k`, in order. */
  function WithKey(s: seq<Pair>, o: Order, k: real): seq<Pair>
  {
    if s == [] then [] else WithKey(s[..|s| - 1], o, k) + (if Key(Last(s), o) == k then [Last(s)] else [])
  }

  lemma {:induction false} WithKeyConcat(a: seq<Pair>, b: seq<Pair>, o: Order, k: real)
    ensures WithKey(a + b, o, k) == WithKey(a, o, k) + WithKey(b, o, k)
    decreases |b|
  {
    if b == [] {
      assert a + b == a;
    } else {
      var c := a + b;
      assert c[..|c| - 1] == a + b[..|b| - 1];
      assert Last(c) == Last(b);
      WithKeyConcat(a, b[..|b| - 1], o, k);
    }
  }

  lemma {:induction false} InsertByStable(x: Pair, t: seq<Pair>, o: Order, k: real)
    ensures WithKey(InsertBy(x, t, o), o, k) == WithKey(t, o, k) + WithKey([x], o, k)
  {
    if t == [] || !Precedes(x, Last(t), o) {
      WithKeyConcat(t, [x], o, k);
    } else {
      var init := t[..|t| - 1];
      InsertByStable(x, init, o, k);
      assert t == init + [Last(t)];
      StableShift(x, init, Last(t), o, k, InsertBy(x, init, o));
    }
  }

  /** Moving `x` past a pair `l` with a different key leaves each key's pairs in order. */
  lemma StableShift(x: Pair, init: seq<Pair>, l: Pair, o: Order, k: real, r: seq<Pair>)
    requires Precedes(x, l, o)
    requires WithKey(r, o, k) == WithKey(init, o, k) + WithKey([x], o, k)
    ensures WithKey(r + [l], o, k) == WithKey(init + [l], o, k) + WithKey([x], o, k)
  {
    WithKeyConcat(r, [l], o, k);
    WithKeyConcat(init, [l], o, k);
    assert [l][..0] == [] && [x][..0] == [];
  }

  /** The sort is stable: the pairs with any one key keep their original order. */
  lemma {:induction false} SortByStable(s: seq<Pair>, o: Order, k: real)
    ensures WithKey(SortBy(s, o), o, k) == WithKey(s, o, k)
  {
    if s != [] {
      var init := s[..|s| - 1];
      SortByStable(init, o, k);
      InsertByStable(Last(s), SortBy(init, o), o, k);
      assert [Last(s)][..0] == [];
    }
  }

  /** `value_pairs.sort(**orderDict[order])`, in place: an insertion sort. */
  method SortPairs(a: array<Pair>, o: Order)
    modifies a
    ensures a[..] == SortBy(old(a[..]), o)
  {
    ghost var s := a[..];
    var i := 0;
    while i < a.Length
      invariant 0 <= i <= a.Length
      invariant a[..i] == SortBy(s[..i], o)
      invariant a[i..] == s[i..]
    {
      assert a[i] == s[i];
      InsertLast(a, i, o);
      assert a[i + 1..] == s[i + 1..];
      SortByPrefix(s, o, i);
      i := i + 1;
    }
    assert s[..i] == s && a[..i] == a[..];
  }

  /** One pass of the insertion sort: `a[i]` moves left past the pairs it strictly precedes. */
  method InsertLast(a: array<Pair>, i: nat, o: Order)
    requires i < a.Length
    modifies a
    ensures a[..i + 1] == InsertBy(old(a[i]), old(a[..i]), o)
    ensures a[i + 1..] == old(a[i + 1..])
  {
    ghost var t := a[..i];
    ghost var rest := a[i + 1..];
    var x := a[i];
    var j := OpenGap(a, i, x, o);
    InsertEnd(x, t, o, j);
    ghost var pre := a[..];
    a[j] := x;
    assert a[..] == pre[j := x];
    Placed(pre, t, rest, x, j);
  }

  /** The shifting loop of one pass: opens a gap where `x` belongs. */
  method OpenGap(a: array<Pair>, i: nat, x: Pair, o: Order) returns (j: nat)
    requires i < a.Length
    modifies a
    ensures Gapped(a[..], old(a[..i]), old(a[i + 1..]), j)
    ensures j == 0 || !Precedes(x, old(a[..i])[j - 1], o)
    ensures InsertBy(x, old(a[..i]), o) == InsertBy(x, old(a[..i])[..j], o) + old(a[..i])[j..]
  {
    ghost var t := a[..i];
    ghost var rest := a[i + 1..];
    j := i;
    assert t[..j] == t && t[j..] == [];
    while j > 0 && Precedes(x, a[j - 1], o)
      invariant 0 <= j <= i
      invariant Gapped(a[..], t, rest, j)
      invariant InsertBy(x, t, o) == InsertBy(x, t[..j], o) + t[j..]
    {
      ghost var pre := a[..];
      GapRead(pre, t, rest, j);
      ShiftStep(x, t, o, j);
      a[j] := a[j - 1];
      assert a[..] == pre[j := pre[j - 1]];
      Shifted(pre, t, rest, j);
      j := j - 1;
    }
    if j > 0 {
      GapRead(a[..], t, rest, j);
    }
  }

  /**
   * The array during one insertion pass: the sorted prefix `t` with a gap at `j`, the pairs
   * after the gap shifted right by one, and the unsorted tail `rest` untouched.
   */
  ghost predicate Gapped(c: seq<Pair>, t: seq<Pair>, rest: seq<Pair>, j: nat)
  {
    j <= |t| && |c| == |t| + 1 + |rest| && c[..j] == t[..j]
    && c[j + 1..|t| + 1] == t[j..] && c[|t| + 1..] == rest
  }

  /** Shifting the pair before the gap into it moves the gap one place left. */
  lemma Shifted(c: seq<Pair>, t: seq<Pair>, rest: seq<Pair>, j: nat)
    requires 0 < j && Gapped(c, t, rest, j)
    ensures Gapped(c[j := c[j - 1]], t, rest, j - 1)
  {
    var d := c[j := c[j - 1]];
    var n := |t| + 1;
    assert d[..j - 1] == c[..j][..j - 1];
    assert d[j..n] == [c[j - 1]] + c[j + 1..n];
    assert t[j - 1..] == [t[j - 1]] + t[j..];
    assert c[j - 1] == c[..j][j - 1];
    assert d[n..] == c[n..];
  }

  lemma GapRead(c: seq<Pair>, t: seq<Pair>, rest: seq<Pair>, j: nat)
    requires 0 < j && Gapped(c, t, rest, j)
    ensures c[j - 1] == t[j - 1]
  {
    assert c[j - 1] == c[..j][j - 1];
  }

  /** Writing the moving pair into the gap completes the insertion. */
  lemma Placed(c: seq<Pair>, t: seq<Pair>, rest: seq<Pair>, x: Pair, j: nat)
    requires Gapped(c, t, rest, j)
    ensures c[j := x][..|t| + 1] == t[..j] + [x] + t[j..]
    ensures c[j := x][|t| + 1..] == rest
  {
    var d := c[j := x];
    var n := |t| + 1;
    assert d[..n] == c[..j] + [x] + c[j + 1..n];
    assert d[n..] == c[n..];
  }

  lemma ShiftStep(x: Pair, t: seq<Pair>, o: Order, j: nat)
    requires 0 < j <= |t|
    requires Precedes(x, t[j - 1], o)
    ensures InsertBy(x, t[..j], o) + t[j..] == InsertBy(x, t[..j - 1], o) + t[j - 1..]
  {
    assert t[..j][..j - 1] == t[..j - 1];
    assert t[j - 1..] == [t[j - 1]] + t[j..];
  }

  lemma InsertEnd(x: Pair, t: seq<Pair>, o: Order, j: nat)
    requires j <= |t|
    requires j == 0 || !Precedes(x, t[j - 1], o)
    ensures InsertBy(x, t[..j], o) == t[..j] + [x]
  {
  }

  lemma SortByPrefix(s: seq<Pair>, o: Order, i: nat)
    requires i < |s|
    ensures SortBy(s[..i + 1], o) == InsertBy(s[i], SortBy(s[..i], o), o)
  {
    assert s[..i + 1][..i] == s[..i];
  }

  // ---------------------------------------------------------------------------------------
  // The window and the magnitude

  /** `pairs[lower - 1:upper]` for `lower >= 1` and `upper >= 0`. */
  function Window(pairs: seq<Pair>, lower: int, upper: int): seq<Pair>
    requires lower >= 1 && upper >= 0
  {
    var hi := if upper < |pairs| then upper else |pairs|;
    if lower - 1 < hi then pairs[lower - 1..hi] else []
  }

  /** The window holds the pairs at 1-based positions `lower..upper` that exist, in order. */
  lemma WindowPositions(pairs: seq<Pair>, lower: int, upper: int)
    requires lower >= 1 && upper >= 0
    ensures var w := Window(pairs, lower, upper);
      |w| <= if upper - lower + 1 > 0 then upper - lower + 1 else 0
    ensures var hi := if upper < |pairs| then upper else |pairs|;
      |Window(pairs, lower, upper)| == if hi >= lower then hi - lower + 1 else 0
    ensures lower > |pairs| ==> Window(pairs, lower, upper) == []
    ensures forall k :: 0 <= k < |Window(pairs, lower, upper)| ==>
      lower - 1 + k < |pairs| && Window(pairs, lower, upper)[k] == pairs[lower - 1 + k]
  {
  }

  function Names(ps: seq<Pair>): (r: seq<string>)
    ensures |r| == |ps|
  {
    seq(|ps|, k requires 0 <= k < |ps| => ps[k].0)
  }

  function Values(ps: seq<Pair>): (r: seq<real>)
    ensures |r| == |ps|
  {
    seq(|ps|, k requires 0 <= k < |ps| => ps[k].1)
  }

  /** `max([abs(v) for v in values])`. */
  function MaxAbs(vs: seq<real>): (m: real)
    requires |vs| > 0
    ensures forall k :: 0 <= k < |vs| ==> Abs(vs[k]) <= m
    ensures exists k :: 0 <= k < |vs| && Abs(vs[k]) == m
  {
    if |vs| == 1 then Abs(vs[0])
    else
      var rest := MaxAbs(vs[1..]);
      assert forall k :: 1 <= k < |vs| ==> vs[k] == vs[1..][k - 1];
      if Abs(vs[0]) >= rest then Abs(vs[0]) else rest
  }

  /** The magnitude: the largest absolute value, or 1 where `max` of the empty list raises. */
  function Mag(vs: seq<real>): real
  {
    if vs == [] then 1.0 else MaxAbs(vs)
  }

  lemma MagFacts(vs: seq<real>)
    ensures vs == [] ==> Mag(vs) == 1.0
    ensures forall k :: 0 <= k < |vs| ==> Abs(vs[k]) <= Mag(vs)
    ensures vs != [] ==> exists k :: 0 <= k < |vs| && Abs(vs[k]) == Mag(vs)
    ensures Mag(vs) >= 0.0
  {
    if vs != [] {
      var m := MaxAbs(vs);
    }
  }

  // ---------------------------------------------------------------------------------------
  // get_values

  /** The response `get_values` computes, stated on values: the pairs of the table that pass
      the type filter and the search, sorted, windowed. */
  function Query(table: string, speechId: int, featureType: string, search: string,
                 order: string, lower: int, upper: int,
                 contribs: seq<ContribRow>, coefs: seq<CoefRow>): Result<Response>
    requires lower >= 1 && upper >= 0
  {
    match TypeSlots(featureType)
    case Err(e) => Err(e)
    case Ok(slots) =>
      match OrderOf(order)
      case Err(e) => Err(e)
      case Ok(o) =>
        var w := Window(SortBy(Searched(TableResults(table, speechId, slots, contribs, coefs), search), o), lower, upper);
        Ok(Response(Names(w), Values(w), Mag(Values(w))))
  }

  /** get_values: the type lookup, the SELECT, the search, the in-place sort, the window, the
      JSON lists and the magnitude. */
  method GetValues(table: string, speechId: int, featureType: string, search: string,
                   order: string, lower: int, upper: int,
                   contribs: seq<ContribRow>, coefs: seq<CoefRow>) returns (r: Result<Response>)
    requires lower >= 1 && upper >= 0
    ensures r == Query(table, speechId, featureType, search, order, lower, upper, contribs, coefs)
  {
    var slots := TypeSlots(featureType);
    if slots.Err? {
      return Err(slots.error);
    }
    var valuePairs := Searched(TableResults(table, speechId, slots.value, contribs, coefs), search);
    var o := OrderOf(order);
    if o.Err? {
      return Err(o.error);
    }
    var a := new Pair[|valuePairs|](k requires 0 <= k < |valuePairs| => valuePairs[k]);
    assert a[..] == valuePairs;
    SortPairs(a, o.value);
    var hi := if upper < a.Length then upper else a.Length;
    var final := if lower - 1 < hi then a[lower - 1..hi] else [];
    r := Ok(Response(Names(final), Values(final), Mag(Values(final))));
  }

  /** An unknown type or order is a lookup failure, the type being looked up first; with both
      known the query succeeds. */
  lemma QueryErrors(table: string, speechId: int, featureType: string, search: string,
                    order: string, lower: int, upper: int,
                    contribs: seq<ContribRow>, coefs: seq<CoefRow>)
    requires lower >= 1 && upper >= 0
    ensures var r := Query(table, speechId, featureType, search, order, lower, upper, contribs, coefs);
      (TypeSlots(featureType).Err? ==> r == Err(UnknownType(featureType))) &&
      (TypeSlots(featureType).Ok? && OrderOf(order).Err? ==> r == Err(UnknownOrder(order))) &&
      (r.Ok? <==> TypeSlots(featureType).Ok? && OrderOf(order).Ok?)
  {
  }

  /** The window of sorted candidates the response is built from. */
  function Candidates(table: string, speechId: int, slots: seq<string>, search: string, o: Order,
                      contribs: seq<ContribRow>, coefs: seq<CoefRow>): seq<Pair>
  {
    SortBy(Searched(TableResults(table, speechId, slots, contribs, coefs), search), o)
  }

  /** A successful response: names and values have equal length, at most the window's width,
      and are index-aligned with the sorted candidates at 1-based positions from `lower`; the
      magnitude bounds every value's absolute value. */
  lemma QueryResponse(table: string, speechId: int, featureType: string, search: string,
                      order: string, lower: int, upper: int,
                      contribs: seq<ContribRow>, coefs: seq<CoefRow>)
    requires lower >= 1 && upper >= 0
    requires TypeSlots(featureType).Ok? && OrderOf(order).Ok?
    ensures var r := Query(table, speechId, featureType, search, order, lower, upper, contribs, coefs);
      var c := Candidates(table, speechId, TypeSlots(featureType).value, search, OrderOf(order).value, contribs, coefs);
      r.Ok? &&
      |r.value.featureNames| == |r.value.values| &&
      |r.value.values| <= (if upper - lower + 1 > 0 then upper - lower + 1 else 0) &&
      (forall k :: 0 <= k < |r.value.values| ==>
        lower - 1 + k < |c| && (r.value.featureNames[k], r.value.values[k]) == c[lower - 1 + k]) &&
      (forall k :: 0 <= k < |r.value.values| ==> Abs(r.value.values[k]) <= r.value.mag) &&
      (r.value.values == [] ==> r.value.mag == 1.0)
  {
    var c := Candidates(table, speechId, TypeSlots(featureType).value, search, OrderOf(order).value, contribs, coefs);
    var w := Window(c, lower, upper);
    WindowPositions(c, lower, upper);
    MagFacts(Values(w));
  }

  /** Every candidate, for the contribution table, is a row of the speech of an admitted type
      whose last field matches the search, and every such row is a candidate; the candidates
      are ordered by the key and hold each selected pair as often as the SELECT does. */
  lemma ContribCandidates(speechId: int, slots: seq<string>, search: string, o: Order,
                          contribs: seq<ContribRow>, coefs: seq<CoefRow>)
    ensures var c := Candidates("contribs", speechId, slots, search, o, contribs, coefs);
      SortedBy(c, o) &&
      multiset(c) == multiset(Searched(ContribResults(contribs, speechId, slots), search)) &&
      forall p :: p in c <==>
        Matches(p.0, search) &&
        exists x :: x in contribs && x.speechId == speechId && Admits(slots, x.featureType) &&
                    p == (x.longName, x.value)
  {
    var sel := ContribResults(contribs, speechId, slots);
    var srch := Searched(sel, search);
    SortBySorted(srch, o);
    SortByPermutes(srch, o);
    SearchedMembers(sel, search);
    ContribResultsMembers(contribs, speechId, slots);
    var c := SortBy(srch, o);
    forall p ensures p in c <==> p in srch {
      assert p in c <==> p in multiset(c);
    }
  }

  /** For any other table name, the candidates come from the coefficient table, whatever the
      speech id. */
  lemma CoefCandidates(table: string, speechId: int, slots: seq<string>, search: string, o: Order,
                       contribs: seq<ContribRow>, coefs: seq<CoefRow>)
    requires table != "contribs"
    ensures var c := Candidates(table, speechId, slots, search, o, contribs, coefs);
      SortedBy(c, o) &&
      forall p :: p in c <==>
        Matches(p.0, search) &&
        exists x :: x in coefs && Admits(slots, x.featureType) && p == (x.longName, x.value)
  {
    var sel := CoefResults(coefs, slots);
    var srch := Searched(sel, search);
    SortBySorted(srch, o);
    SortByPermutes(srch, o);
    SearchedMembers(sel, search);
    CoefResultsMembers(coefs, slots);
    var c := SortBy(srch, o);
    forall p ensures p in c <==> p in srch {
      assert p in c <==> p in multiset(c);
    }
  }

  /** Five candidates with values 5, -4, 3, -2, 1 in descending value order: the window 1..2
      holds the values 5 and 3; the window 10..20 is empty, with magnitude 1. */
  lemma DescValExample(a: Pair, b: Pair, c: Pair, d: Pair, e: Pair)
    requires a.1 == 5.0 && b.1 == -4.0 && c.1 == 3.0 && d.1 == -2.0 && e.1 == 1.0
    ensures Values(Window(SortBy([a, b, c, d, e], DescVal), 1, 2)) == [5.0, 3.0]
    ensures Window(SortBy([a, b, c, d, e], DescVal), 10, 20) == []
    ensures Mag(Values(Window(SortBy([a, b, c, d, e], DescVal), 10, 20))) == 1.0
  {
    var o := DescVal;
    var r := DescValSorted(a, b, c, d, e);
    SortByFive(a, b, c, d, e, o);
    assert Window(r, 1, 2) == [a, c];
  }

  /** The insertions of the descending-value sort of 5, -4, 3, -2, 1. */
  lemma DescValSorted(a: Pair, b: Pair, c: Pair, d: Pair, e: Pair) returns (r: seq<Pair>)
    requires a.1 == 5.0 && b.1 == -4.0 && c.1 == 3.0 && d.1 == -2.0 && e.1 == 1.0
    ensures InsertBy(e, InsertBy(d, InsertBy(c, InsertBy(b, [a], DescVal), DescVal), DescVal), DescVal) == r
    ensures r == [a, c, e, d, b]
  {
    var o := DescVal;
    InsertStop(b, [a], o);
    InsertShift(c, [a], b, o);
    InsertStop(c, [a], o);
    InsertShift(d, [a, c], b, o);
    InsertStop(d, [a, c], o);
    assert [a] + [c] == [a, c] && [a, c] + [d] == [a, c, d];
    InsertShift(e, [a, c, d], b, o);
    InsertShift(e, [a, c], d, o);
    InsertStop(e, [a, c], o);
    r := [a, c, e, d, b];
  }

  /** The sort of five pairs is four insertions into the first. */
  lemma SortByFive(a: Pair, b: Pair, c: Pair, d: Pair, e: Pair, o: Order)
    ensures SortBy([a, b, c, d, e], o) == InsertBy(e, InsertBy(d, InsertBy(c, InsertBy(b, [a], o), o), o), o)
  {
    SortBySnoc([], a, o);
    SortBySnoc([a], b, o);
    SortBySnoc([a, b], c, o);
    SortBySnoc([a, b, c], d, o);
    SortBySnoc([a, b, c, d], e, o);
    assert [] + [a] == [a] && [a] + [b] == [a, b] && [a, b] + [c] == [a, b, c];
    assert [a, b, c] + [d] == [a, b, c, d] && [a, b, c, d] + [e] == [a, b, c, d, e];
  }

  lemma SortBySnoc(t: seq<Pair>, x: Pair, o: Order)
    ensures SortBy(t + [x], o) == InsertBy(x, SortBy(t, o), o)
  {
    assert (t + [x])[..|t|] == t;
  }

  /** A pair stops after a last pair it does not strictly precede. */
  lemma InsertStop(x: Pair, t: seq<Pair>, o: Order)
    requires t == [] || !Precedes(x, Last(t), o)
    ensures InsertBy(x, t, o) == t + [x]
  {
  }

  /** A pair moves left past a last pair it strictly precedes. */
  lemma InsertShift(x: Pair, t: seq<Pair>, y: Pair, o: Order)
    requires Precedes(x, y, o)
    ensures InsertBy(x, t + [y], o) == InsertBy(x, t, o) + [y]
  {
    assert (t + [y])[..|t|] == t;
  }

  /** Equal magnitudes keep their order under a magnitude sort. */
  lemma EqualMagnitudesKeepOrder()
    ensures SortBy([("a", 2.0), ("b", -2.0)], DescMag) == [("a", 2.0), ("b", -2.0)]
  {
    var t: seq<Pair> := [("a", 2.0), ("b", -2.0)];
    assert t[..1] == [("a", 2.0)] && [("a", 2.0)][..0] == [];
  }

  // ---------------------------------------------------------------------------------------
  // reset

  /** The two global counters of the game. */
  class Scoreboard {
    var numTotal: nat
    var numCorrect: nat

    ghost predicate Valid()
      reads this
    {
      numCorrect <= numTotal
    }

    constructor ()
      ensures Valid() && numTotal == 0 && numCorrect == 0
    {
      numTotal := 0;
      numCorrect := 0;
    }

    /** The counter updates of `reset` for a round whose prediction and observation are
        `pred` and `obs`. */
    method Record(pred: string, obs: string)
      requires Valid()
      modifies this
      ensures Valid()
      ensures numTotal == old(numTotal) + 1
      ensures numCorrect == old(numCorrect) + (if pred == obs then 1 else 0)
    {
      numTotal := numTotal + 1;
      if pred == obs {
        numCorrect := numCorrect + 1;
      }
    }
  }

  /** `SELECT COUNT(*) FROM contribs WHERE speech_id=?`. */
  function NumContributors(rows: seq<ContribRow>, speechId: int): nat
  {
    |RowsOf(rows, speechId)|
  }

  /** In the table the expansion builds, with distinct speech ids, a speech has one contributor
      per non-zero contribution plus its intercept row; an unknown speech has none. */
  lemma NumContributorsCount(ids: seq<int>, features: seq<seq<real>>, coefs: seq<real>,
                             names: seq<FeatureName>, intercept: real, id: int)
    requires |ids| == |features| && Conformant(features, coefs, names)
    requires forall p, q :: 0 <= p < q < |ids| ==> ids[p] != ids[q]
    ensures forall i :: 0 <= i < |ids| && ids[i] == id ==>
      NumContributors(ContribTable(ids, features, coefs, names, intercept), id)
        == |NonzeroIndices(ContribVector(features[i], coefs))| + 1
    ensures id !in ids ==> NumContributors(ContribTable(ids, features, coefs, names, intercept), id) == 0
  {
    forall i | 0 <= i < |ids| && ids[i] == id
      ensures NumContributors(ContribTable(ids, features, coefs, names, intercept), id)
        == |NonzeroIndices(ContribVector(features[i], coefs))| + 1
    {
      TableRowsOf(ids, features, coefs, names, intercept, i);
      DocRowsShape(id, ContribVector(features[i], coefs), names, intercept);
    }
    if id !in ids {
      TableRowsOfMissing(ids, features, coefs, names, intercept, id);
    }
  }
}
