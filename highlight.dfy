/** Pre-rendering of a speech for display: highlight markers are spliced around the chosen
    feature's spans from right to left, years 2000 to 2019 are redacted, and the result is split
    into paragraphs. */
module Highlight {
  import opened Text
  import opened Features
  import opened Contributions
  import WordMatch
  import RangeMerge

  const Open: string := "<span class=\"highlight\">"
  const Close: string := "</span>"

  /** A span's text between a marker pair. */
  function Marked(m: string): string
  {
    Open + m + Close
  }

  /** The length the markers of one span add. */
  const MarkerWidth: int := |Open| + |Close|

  /** Spans `(start, end)` in ascending order from `pos` on, inside a text of length `n`: each
      span starts at or after the end of the one before it. */
  predicate Chain(spans: seq<(int, int)>, pos: int, n: int)
    decreases |spans|
  {
    if spans == [] then 0 <= pos <= n
    else 0 <= pos <= spans[0].0 <= spans[0].1 <= n && Chain(spans[1..], spans[0].1, n)
  }

  /** Where the text from `pos` on is copied before the first span, or the text's end. */
  function NextStart(spans: seq<(int, int)>, n: int): int
  {
    if spans == [] then n else spans[0].0
  }

  /** The same condition, stated pairwise. */
  predicate Ordered(spans: seq<(int, int)>, n: int)
  {
    (forall k :: 0 <= k < |spans| ==> 0 <= spans[k].0 <= spans[k].1 <= n) &&
    forall j, k :: 0 <= j < k < |spans| ==> spans[j].1 <= spans[k].0
  }

  /** Spans form a chain from `pos` exactly when they are ordered and `pos` comes before the
      first of them. */
  lemma {:induction false} ChainOrdered(spans: seq<(int, int)>, pos: int, n: int)
    ensures Chain(spans, pos, n) <==> Ordered(spans, n) && 0 <= pos <= NextStart(spans, n)
    decreases |spans|
  {
    if spans != [] {
      var t := spans[1..];
      ChainOrdered(t, spans[0].1, n);
      if Ordered(spans, n) && 0 <= pos <= NextStart(spans, n) {
        assert Ordered(t, n) by {
          forall j, k | 0 <= j < k < |t| ensures t[j].1 <= t[k].0 {
            assert t[j] == spans[j + 1] && t[k] == spans[k + 1];
          }
        }
        if t != [] {
          assert t[0] == spans[1];
        }
      }
      if Chain(spans, pos, n) {
        forall j, k | 0 <= j < k < |spans| ensures spans[j].1 <= spans[k].0 {
          if j == 0 {
            assert spans[k] == t[k - 1];
            if k > 1 {
              assert t[0] == spans[1];
            }
          } else {
            assert spans[j] == t[j - 1] && spans[k] == t[k - 1];
          }
        }
        forall k | 0 <= k < |spans| ensures 0 <= spans[k].0 <= spans[k].1 <= n {
          if k > 0 {
            assert spans[k] == t[k - 1];
          }
        }
      }
    }
  }

  /** The spans after the first `k` still form a chain, from their own first start. */
  lemma {:induction false} ChainSuffix(spans: seq<(int, int)>, pos: int, n: int, k: nat)
    requires Chain(spans, pos, n) && k <= |spans|
    ensures Chain(spans[k..], NextStart(spans[k..], n), n)
    decreases k
  {
    if k > 0 {
      ChainSuffix(spans[1..], spans[0].1, n, k - 1);
      assert spans[1..][k - 1..] == spans[k..];
    } else if spans == [] {
    } else {
      assert spans[0..] == spans;
    }
  }

  /** The text from `pos` on with every span wrapped in a marker pair. */
  function Render(text: string, spans: seq<(int, int)>, pos: int): string
    requires Chain(spans, pos, |text|)
    decreases |spans|
  {
    if spans == [] then text[pos..]
    else
      var (a, b) := spans[0];
      text[pos..a] + Marked(text[a..b]) + Render(text, spans[1..], b)
  }

  /** Each span adds one marker pair. */
  lemma {:induction false} RenderLength(text: string, spans: seq<(int, int)>, pos: int)
    requires Chain(spans, pos, |text|)
    ensures |Render(text, spans, pos)| == |text| - pos + |spans| * MarkerWidth
    decreases |spans|
  {
    if spans != [] {
      RenderLength(text, spans[1..], spans[0].1);
      Shift(|spans|, MarkerWidth);
    }
  }

  lemma SliceTwo(s: string, i: int, j: int, k: int)
    requires 0 <= i <= j <= k <= |s|
    ensures s[i..k] == s[i..j] + s[j..k]
  {
  }

  lemma SliceThree(s: string, i: int, j: int, k: int)
    requires 0 <= i <= j <= k <= |s|
    ensures s[i..] == s[i..j] + (s[j..k] + s[k..])
  {
    assert s[i..] == s[i..j] + s[j..];
    assert s[j..] == s[j..k] + s[k..];
  }

  lemma Assoc5(u: string, o: string, m: string, c: string, r: string)
    ensures (u + ((o + m) + c)) + r == u + (o + (m + (c + r)))
  {
  }

  lemma Assoc4(u: string, v: string, x: string, r: string)
    ensures ((u + v) + x) + r == u + ((v + x) + r)
  {
  }

  /** Moving the start of a rendering forward over plain text. */
  lemma RenderShift(text: string, spans: seq<(int, int)>, p: int, q: int)
    requires Chain(spans, q, |text|) && 0 <= p <= q
    ensures Chain(spans, p, |text|)
    ensures Render(text, spans, p) == text[p..q] + Render(text, spans, q)
  {
    if spans == [] {
      SliceTwo(text, p, q, |text|);
      assert text[p..] == text[p..|text|];
    } else {
      var (a, b) := spans[0];
      SliceTwo(text, p, q, a);
      Assoc4(text[p..q], text[q..a], Marked(text[a..b]), Render(text, spans[1..], b));
    }
  }

  /** The splice loop of add_spans: the spans are visited from the last to the first, which is
      the order `spans.sort(reverse=True)` gives for ascending spans, and each one is wrapped in
      markers in the text as spliced so far. */
  method Splice(text: string, spans: seq<(int, int)>) returns (stripped: string)
    requires Chain(spans, 0, |text|)
    ensures stripped == Render(text, spans, 0)
  {
    stripped := text;
    var k := |spans|;
    assert text[..|text|] + text[|text|..] == text;
    while k > 0
      invariant 0 <= k <= |spans|
      invariant Chain(spans[k..], NextStart(spans[k..], |text|), |text|)
      invariant stripped == text[..NextStart(spans[k..], |text|)]
                            + Render(text, spans[k..], NextStart(spans[k..], |text|))
    {
      ghost var q := NextStart(spans[k..], |text|);
      k := k - 1;
      var (a, b) := spans[k];
      ChainSuffix(spans, 0, |text|, k);
      SpliceStep(text, spans, k, a, b, q);
      SplitPrefix(text, q, Render(text, spans[k + 1..], q), a, b);
      stripped := stripped[0..a] + Open + stripped[a..b] + Close + stripped[b..];
    }
    RenderShift(text, spans, 0, NextStart(spans, |text|));
  }

  /** One step of the splice loop: wrapping span `k` in front of the rendering of the spans
      after it gives the rendering from span `k` on. */
  lemma SpliceStep(text: string, spans: seq<(int, int)>, k: nat, a: int, b: int, q: int)
    requires k < |spans| && spans[k] == (a, b)
    requires Chain(spans[k..], a, |text|)
    requires Chain(spans[k + 1..], q, |text|) && q == NextStart(spans[k + 1..], |text|)
    ensures 0 <= a <= b <= q <= |text|
    ensures text[..a] + Open + text[a..b] + Close + (text[b..q] + Render(text, spans[k + 1..], q))
            == text[..a] + Render(text, spans[k..], a)
  {
    var t := spans[k..];
    assert t[0] == spans[k] && t[1..] == spans[k + 1..];
    if k + 1 < |spans| {
      assert spans[k + 1..][0] == t[1];
    }
    RenderShift(text, spans[k + 1..], b, q);
    Regroup(text[..a], text[a..a], text[a..b], text[b..q] + Render(text, spans[k + 1..], q));
  }

  lemma Regroup(u: string, e: string, m: string, x: string)
    requires e == []
    ensures u + Open + m + Close + x == u + ((e + Marked(m)) + x)
  {
  }

  /** Slicing a text prefix followed by more text, at two points inside the prefix. */
  lemma SplitPrefix(text: string, q: int, r: string, a: int, b: int)
    requires 0 <= a <= b <= q <= |text|
    ensures var s := text[..q] + r;
      s[0..a] == text[..a] && s[a..b] == text[a..b] && s[b..] == text[b..q] + r
  {
  }

  // ---------------------------------------------------------------------------------------
  // Deleting the markers

  /** Delete every marker, scanning from left to right. */
  function StripMarkers(s: string): string
    decreases |s|
  {
    if s == [] then []
    else if OccursAt(s, Open, 0) then StripMarkers(s[|Open|..])
    else if OccursAt(s, Close, 0) then StripMarkers(s[|Close|..])
    else [s[0]] + StripMarkers(s[1..])
  }

  predicate NoAngle(s: string) { forall i :: 0 <= i < |s| ==> s[i] != '<' }

  lemma StripOpen(w: string)
    ensures StripMarkers(Open + w) == StripMarkers(w)
  {
    assert (Open + w)[..|Open|] == Open;
    assert (Open + w)[|Open|..] == w;
  }

  lemma StripClose(w: string)
    ensures StripMarkers(Close + w) == StripMarkers(w)
  {
    var s := Close + w;
    assert s[..|Close|] == Close;
    assert s[|Close|..] == w;
    assert !OccursAt(s, Open, 0) by {
      assert s[1] == '/';
      if |Open| <= |s| { assert s[..|Open|][1] == s[1]; }
    }
  }

  lemma {:induction false} StripPlain(u: string, w: string)
    requires NoAngle(u)
    ensures StripMarkers(u + w) == u + StripMarkers(w)
  {
    if u != [] {
      var s := u + w;
      assert s[0] == u[0];
      assert !OccursAt(s, Open, 0) by {
        if |Open| <= |s| { assert s[..|Open|][0] == s[0]; }
      }
      assert !OccursAt(s, Close, 0) by {
        if |Close| <= |s| { assert s[..|Close|][0] == s[0]; }
      }
      assert s[1..] == u[1..] + w;
      StripPlain(u[1..], w);
      assert u == [u[0]] + u[1..];
    } else {
      assert u + w == w;
    }
  }

  /** One marked span, with plain text before it. */
  lemma StripPiece(u: string, m: string, rest: string)
    requires NoAngle(u) && NoAngle(m)
    ensures StripMarkers((u + Marked(m)) + rest) == u + (m + StripMarkers(rest))
  {
    Assoc5(u, Open, m, Close, rest);
    StripPlain(u, Open + (m + (Close + rest)));
    StripOpen(m + (Close + rest));
    StripPlain(m, Close + rest);
    StripClose(rest);
  }

  /** Deleting the markers from a rendering gives back the text, when the text itself holds no
      `<` that could start a marker. */
  lemma {:induction false} StripRender(text: string, spans: seq<(int, int)>, pos: int)
    requires Chain(spans, pos, |text|) && NoAngle(text)
    ensures StripMarkers(Render(text, spans, pos)) == text[pos..]
    decreases |spans|
  {
    if spans == [] {
      StripPlain(text[pos..], []);
      assert text[pos..] + [] == text[pos..];
    } else {
      var (a, b) := spans[0];
      var rest := Render(text, spans[1..], b);
      StripRender(text, spans[1..], b);
      StripPiece(text[pos..a], text[a..b], rest);
      SliceThree(text, pos, a, b);
    }
  }

  /** Span `k`'s text sits between a marker pair, shifted by the markers of the spans before. */
  lemma {:induction false} RenderWraps(text: string, spans: seq<(int, int)>, pos: int, k: nat, a: int, b: int)
    requires Chain(spans, pos, |text|) && k < |spans| && spans[k] == (a, b)
    ensures 0 <= a <= b <= |text|
    ensures OccursAt(Render(text, spans, pos), Marked(text[a..b]), a - pos + k * MarkerWidth)
    decreases |spans|
  {
    var (a0, b0) := spans[0];
    var out, head, rest := Render(text, spans, pos), text[pos..a0] + Marked(text[a0..b0]),
                           Render(text, spans[1..], b0);
    if k == 0 {
      OccursPiece(out, text[pos..a0], Marked(text[a..b]), rest, a - pos + k * MarkerWidth);
    } else {
      assert spans[1..][k - 1] == spans[k];
      RenderWraps(text, spans[1..], b0, k - 1, a, b);
      OccursShifted(out, head, rest, Marked(text[a..b]), a, b0, pos, k, MarkerWidth);
    }
  }

  lemma OccursShifted(out: string, head: string, rest: string, m: string, s: int, b: int, pos: int,
                      k: int, w: int)
    requires out == head + rest
    requires OccursAt(rest, m, s - b + (k - 1) * w)
    requires |head| == b - pos + w
    ensures OccursAt(out, m, s - pos + k * w)
  {
    OccursAfter(head, rest, m, s - b + (k - 1) * w);
    Shift(k, w);
  }

  lemma Shift(k: int, w: int)
    ensures (k - 1) * w + w == k * w
  {
  }

  lemma OccursPiece(out: string, u: string, piece: string, rest: string, i: int)
    requires out == (u + piece) + rest && i == |u|
    ensures OccursAt(out, piece, i)
  {
    assert out[|u|..|u| + |piece|] == piece;
  }

  lemma OccursAfter(u: string, rest: string, m: string, i: int)
    requires OccursAt(rest, m, i)
    ensures OccursAt(u + rest, m, |u| + i)
  {
    assert (u + rest)[|u| + i..|u| + i + |m|] == rest[i..i + |m|];
  }

  // ---------------------------------------------------------------------------------------
  // Year redaction

  /** The pattern `(?<=[^0-9])20[0-1][0-9](?=[^0-9])` matches at index `i`: a year from 2000 to
      2019 with an actual non-digit character on both sides. */
  predicate YearAt(s: string, i: int)
  {
    1 <= i && i + 4 < |s| && !IsDigit(s[i - 1]) && s[i] == '2' && s[i + 1] == '0' &&
    (s[i + 2] == '0' || s[i + 2] == '1') && IsDigit(s[i + 3]) && !IsDigit(s[i + 4])
  }

  /** `re.sub` of that pattern by `****`, scanning from `i`. */
  function RedactFrom(s: string, i: nat): string
    decreases |s| - i
  {
    if i >= |s| then []
    else if YearAt(s, i) then "****" + RedactFrom(s, i + 4)
    else [s[i]] + RedactFrom(s, i + 1)
  }

  function Redact(s: string): string
  {
    RedactFrom(s, 0)
  }

  /** Index `k` lies inside a redactable year. */
  predicate InYear(s: string, k: int)
  {
    exists i | k - 3 <= i <= k :: YearAt(s, i)
  }

  lemma InYearCases(s: string, k: int)
    ensures InYear(s, k) <==> YearAt(s, k - 3) || YearAt(s, k - 2) || YearAt(s, k - 1) || YearAt(s, k)
  {
    if InYear(s, k) {
      var i :| k - 3 <= i <= k && YearAt(s, i);
      assert i == k - 3 || i == k - 2 || i == k - 1 || i == k;
    }
  }

  /** The character redaction leaves at index `k`. */
  function Masked(s: string, k: int): char
    requires 0 <= k < |s|
  {
    if InYear(s, k) then '*' else s[k]
  }

  /** Matches cannot overlap: a year's digits cannot have a digit before them. */
  lemma YearsApart(s: string, i: int, j: int)
    requires YearAt(s, i) && i < j <= i + 3
    ensures !YearAt(s, j)
  {
  }

  /** No year starts in the three places before `i`, where a scan resumed at `i` would have
      found it overlapping. */
  predicate NoYearBefore(s: string, i: int)
  {
    forall j | i - 3 <= j < i :: !YearAt(s, j)
  }

  /** `r` is the text from `i` on with every character of a redactable year masked. */
  predicate MaskedFrom(s: string, i: int, r: string)
  {
    0 <= i <= |s| && |r| == |s| - i && forall k | i <= k < |s| :: r[k - i] == Masked(s, k)
  }

  lemma MaskedCons(s: string, i: int, h: string, r: string)
    requires 0 <= i && i + |h| <= |s|
    requires forall k | i <= k < i + |h| :: h[k - i] == Masked(s, k)
    requires MaskedFrom(s, i + |h|, r)
    ensures MaskedFrom(s, i, h + r)
  {
    forall k | i + |h| <= k < |s| ensures (h + r)[k - i] == Masked(s, k) {
      assert (h + r)[k - i] == r[k - (i + |h|)];
    }
  }

  lemma {:induction false} RedactFromPointwise(s: string, i: nat)
    requires i <= |s| && NoYearBefore(s, i)
    ensures MaskedFrom(s, i, RedactFrom(s, i))
    decreases |s| - i
  {
    if i < |s| {
      if YearAt(s, i) {
        forall j | i + 1 <= j < i + 4 ensures !YearAt(s, j) {
          YearsApart(s, i, j);
        }
        RedactFromPointwise(s, i + 4);
        YearMasked(s, i);
        MaskedCons(s, i, "****", RedactFrom(s, i + 4));
      } else {
        RedactFromPointwise(s, i + 1);
        InYearCases(s, i);
        MaskedCons(s, i, [s[i]], RedactFrom(s, i + 1));
      }
    }
  }

  /** Every character of a redactable year is masked. */
  lemma YearMasked(s: string, i: int)
    requires YearAt(s, i)
    ensures forall k | i <= k < i + 4 :: Masked(s, k) == '*'
  {
    forall k | i <= k < i + 4 ensures InYear(s, k) {
      assert k - 3 <= i <= k && YearAt(s, i);
    }
  }

  /** Redaction keeps the length and replaces each character of a redactable year by `*`,
      leaving every other character as it was. */
  lemma RedactPointwise(s: string)
    ensures |Redact(s)| == |s|
    ensures forall k | 0 <= k < |s| :: Redact(s)[k] == Masked(s, k)
  {
    RedactFromPointwise(s, 0);
    var r := Redact(s);
    forall k | 0 <= k < |s| ensures r[k] == Masked(s, k) {
      assert r[k - 0] == Masked(s, k);
    }
  }

  /** No redactable year is left after redaction. */
  lemma RedactLeavesNoYear(s: string)
    ensures forall i :: !YearAt(Redact(s), i)
  {
    forall i ensures !YearAt(Redact(s), i) {
      NoYearAfterRedact(s, i);
    }
  }

  /** The characters of a year left in the output would be the original's, outside every year;
      a `*` on either side would have to belong to a year that covers them too or sits right
      next to a digit. */
  lemma NoYearAfterRedact(s: string, i: int)
    ensures !YearAt(Redact(s), i)
  {
    RedactPointwise(s);
    if 1 <= i && i + 4 < |s| {
      InYearCases(s, i - 1);
      InYearCases(s, i);
      InYearCases(s, i + 1);
      InYearCases(s, i + 2);
      InYearCases(s, i + 3);
      InYearCases(s, i + 4);
    }
  }

  lemma {:induction false} RedactFromNoYear(s: string, i: nat)
    requires forall j :: !YearAt(s, j)
    ensures RedactFrom(s, i) == if i < |s| then s[i..] else []
    decreases |s| - i
  {
    if i < |s| {
      RedactFromNoYear(s, i + 1);
      assert s[i..] == [s[i]] + if i + 1 < |s| then s[i + 1..] else [];
    }
  }

  /** Redacting twice is redacting once. */
  lemma RedactIdempotent(s: string)
    ensures Redact(Redact(s)) == Redact(s)
  {
    RedactLeavesNoYear(s);
    RedactFromNoYear(Redact(s), 0);
  }

  /** A year between spaces is redacted. */
  lemma RedactSpacedYear()
    ensures Redact("in 2015 he") == "in **** he"
  {
    var s := "in 2015 he";
    RedactPointwise(s);
    assert YearAt(s, 3);
    forall k | 0 <= k < 10 ensures Redact(s)[k] == "in **** he"[k] {
      InYearCases(s, k);
    }
  }

  /** A year at the very start has no character before it, so it is kept. */
  lemma RedactLeadingYear()
    ensures Redact("2015 was") == "2015 was"
  {
    var s := "2015 was";
    RedactPointwise(s);
    forall k | 0 <= k < 8 ensures Redact(s)[k] == s[k] {
      InYearCases(s, k);
    }
  }

  /** A year outside 2000 to 2019 is kept. */
  lemma RedactOtherYear()
    ensures Redact("in 1999 he") == "in 1999 he"
  {
    var s := "in 1999 he";
    RedactPointwise(s);
    forall k | 0 <= k < 10 ensures Redact(s)[k] == s[k] {
      InYearCases(s, k);
    }
  }

  /** The lookarounds accept letters, so a year inside a word is redacted. */
  lemma RedactYearInWord()
    ensures Redact("item2015item") == "item****item"
  {
    var s := "item2015item";
    RedactPointwise(s);
    assert YearAt(s, 4);
    forall k | 0 <= k < 12 ensures Redact(s)[k] == "item****item"[k] {
      InYearCases(s, k);
    }
  }

  // ---------------------------------------------------------------------------------------
  // add_spans

  /** A range set by the part-of-speech search: inside the text, start at most end. */
  predicate RangesWithin(ranges: seq<(int, int)>, n: int)
  {
    forall r :: r in ranges ==> 0 <= r.0 <= r.1 <= n
  }

  /** The spans add_spans highlights for the chosen feature: the merged part-of-speech ranges
      `posSpans`, or the word matches. */
  function HighlightSpans(stripped: string, feature: (string, FeatureType), posSpans: seq<(int, int)>): seq<(int, int)>
    requires feature.1 != Pos ==> |feature.0| > 0
  {
    if feature.1 == Pos then posSpans else WordMatch.WordSpans(stripped, feature.0)
  }

  /** The first loop's bound carries over: every range the merge as written puts out starts at
      an input range's start and ends at an input range's end, so it stays inside the text. */
  lemma {:induction false} MergeWithin(rs: seq<(int, int)>, n: int)
    requires RangesWithin(rs, n)
    ensures forall r :: r in RangeMerge.MergeAll(rs) ==> 0 <= r.0 && r.1 <= n
  {
    if rs != [] {
      var init := rs[..|rs| - 1];
      assert RangesWithin(init, n) by {
        forall r | r in init ensures r in rs {
          var k :| 0 <= k < |init| && init[k] == r;
          assert rs[k] == r;
        }
      }
      MergeWithin(init, n);
      assert rs[|rs| - 1] in rs;
      StepWithin(RangeMerge.MergeAll(init), rs[|rs| - 1], n);
    }
  }

  lemma StepWithin(sp: seq<(int, int)>, r: (int, int), n: int)
    requires forall q :: q in sp ==> 0 <= q.0 && q.1 <= n
    requires 0 <= r.0 && r.1 <= n
    ensures forall q :: q in RangeMerge.MergeStep(sp, r) ==> 0 <= q.0 && q.1 <= n
  {
    if sp != [] && r.0 < sp[|sp| - 1].1 {
      var front := sp[..|sp| - 1];
      assert sp[|sp| - 1] in sp;
      assert forall q :: q in front ==> q in sp;
    }
  }

  /** The same bound for the corrected merge. */
  lemma {:induction false} MergeWithinMax(rs: seq<(int, int)>, n: int)
    requires RangesWithin(rs, n)
    ensures RangesWithin(RangeMerge.MergeAllMax(rs), n)
  {
    if rs != [] {
      var init := rs[..|rs| - 1];
      MergeWithinMax(init, n);
      assert rs[|rs| - 1] in rs;
      var sp := RangeMerge.MergeAllMax(init);
      if sp != [] {
        assert sp[|sp| - 1] in sp;
      }
    }
  }

  /** The highlighted spans form a chain from the start of the text, so the splice loop can
      wrap them all. */
  lemma HighlightSpansChain(stripped: string, feature: (string, FeatureType), posSpans: seq<(int, int)>)
    requires feature.1 != Pos ==> |feature.0| > 0
    requires feature.1 == Pos ==> Ordered(posSpans, |stripped|)
    ensures Chain(HighlightSpans(stripped, feature, posSpans), 0, |stripped|)
  {
    var spans := HighlightSpans(stripped, feature, posSpans);
    if feature.1 != Pos {
      WordSpansOrdered(stripped, feature.0);
    }
    ChainOrdered(spans, 0, |stripped|);
  }

  /** The part-of-speech ranges inside the text, sorted and merged as written, are ordered. */
  lemma MergedOrdered(posRanges: seq<(int, int)>, n: int)
    requires RangesWithin(posRanges, n)
    ensures Ordered(RangeMerge.MergeAll(RangeMerge.SortRanges(posRanges)), n)
  {
    var sorted := RangeMerge.SortRanges(posRanges);
    SortedWithin(posRanges, n);
    MergeWithin(sorted, n);
    RangeMerge.MergeAllSeparated(sorted);
    var out := RangeMerge.MergeAll(sorted);
    forall r | r in out ensures 0 <= r.0 <= r.1 <= n {
      var k :| 0 <= k < |out| && out[k] == r;
    }
    SeparatedWithinOrdered(out, n);
  }

  /** The same ranges, sorted and merged by the corrected merge, are ordered. */
  lemma MergedOrderedMax(posRanges: seq<(int, int)>, n: int)
    requires RangesWithin(posRanges, n)
    ensures Ordered(RangeMerge.MergeAllMax(RangeMerge.SortRanges(posRanges)), n)
  {
    var sorted := RangeMerge.SortRanges(posRanges);
    SortedWithin(posRanges, n);
    MergeWithinMax(sorted, n);
    RangeMerge.MergeAllMaxCorrect(sorted);
    SeparatedWithinOrdered(RangeMerge.MergeAllMax(sorted), n);
  }

  lemma SortedWithin(rs: seq<(int, int)>, n: int)
    requires RangesWithin(rs, n)
    ensures RangesWithin(RangeMerge.SortRanges(rs), n) && RangeMerge.WellFormed(RangeMerge.SortRanges(rs))
  {
    var sorted := RangeMerge.SortRanges(rs);
    forall r | r in sorted ensures 0 <= r.0 <= r.1 <= n {
      assert r in multiset(sorted);
      assert r in multiset(rs);
    }
    assert forall i :: 0 <= i < |sorted| ==> sorted[i] in sorted;
  }

  lemma SeparatedWithinOrdered(out: seq<(int, int)>, n: int)
    requires RangeMerge.Separated(out) && RangesWithin(out, n)
    ensures Ordered(out, n)
  {
    assert forall k :: 0 <= k < |out| ==> out[k] in out;
    forall j, k | 0 <= j < k < |out| ensures out[j].1 <= out[k].0 {
      RangeMerge.SeparatedOrdered(out, j, k);
    }
  }

  /** Word spans are ordered. */
  lemma WordSpansOrdered(s: string, w: string)
    requires |w| > 0
    ensures Ordered(WordMatch.WordSpans(s, w), |s|)
  {
    var sps := WordMatch.WordSpans(s, w);
    WordMatch.SpansFromSound(s, w, 0);
    WordMatch.SpansFromGap(s, w, 0);
    assert forall k :: 0 <= k < |sps| ==> sps[k] in sps;
    forall j, k | 0 <= j < k < |sps| ensures sps[j].1 <= sps[k].0 {
      WordMatch.AscendingSpans(sps, j, k);
    }
  }

  /** Feature names of non-intercept rows are never empty: they come from the vectorizers'
      vocabularies. */
  predicate NamedRows(rows: seq<ContribRow>)
  {
    forall x :: x in rows && x.featureType != Intercept ==> |x.shortName| > 0
  }

  lemma TopFeatureNamed(speechId: int, predicted: bool, rows: seq<ContribRow>)
    requires NamedRows(rows) && ChooseTopFeature(speechId, predicted, rows).Some?
    ensures |ChooseTopFeature(speechId, predicted, rows).value.0| > 0
  {
    var feature := ChooseTopFeature(speechId, predicted, rows).value;
    var x :| x in rows && x.speechId == speechId && x.featureType != Intercept &&
             feature == (x.shortName, x.featureType);
  }

  /** add_spans: choose the top feature, highlight its spans, redact years. In part-of-speech
      mode the ranges are sorted and merged as written. None where the choice of the top
      feature fails. */
  method AddSpans(stripped: string, speechId: int, predicted: bool, rows: seq<ContribRow>,
                  posRanges: seq<(int, int)>) returns (r: Option<string>)
    requires NamedRows(rows) && RangesWithin(posRanges, |stripped|)
    ensures ChooseTopFeature(speechId, predicted, rows).None? <==> r.None?
    ensures r.Some? ==>
      var feature := ChooseTopFeature(speechId, predicted, rows).value;
      var spans := HighlightSpans(stripped, feature, RangeMerge.MergeAll(RangeMerge.SortRanges(posRanges)));
      Chain(spans, 0, |stripped|) && r.value == Redact(Render(stripped, spans, 0))
  {
    var chosen := ChooseTopFeature(speechId, predicted, rows);
    if chosen.None? {
      return None;
    }
    var feature := chosen.value;
    TopFeatureNamed(speechId, predicted, rows);
    var posSpans: seq<(int, int)> := [];
    if feature.1 == Pos {
      posSpans := RangeMerge.MergeRanges(posRanges);
      MergedOrdered(posRanges, |stripped|);
    }
    var marked := MarkFeature(stripped, feature, posSpans);
    r := Some(marked);
  }

  /** add_spans with the corrected merge, which keeps the larger end. */
  method AddSpansCorrected(stripped: string, speechId: int, predicted: bool, rows: seq<ContribRow>,
                           posRanges: seq<(int, int)>) returns (r: Option<string>)
    requires NamedRows(rows) && RangesWithin(posRanges, |stripped|)
    ensures ChooseTopFeature(speechId, predicted, rows).None? <==> r.None?
    ensures r.Some? ==>
      var feature := ChooseTopFeature(speechId, predicted, rows).value;
      var spans := HighlightSpans(stripped, feature, RangeMerge.MergeAllMax(RangeMerge.SortRanges(posRanges)));
      Chain(spans, 0, |stripped|) && r.value == Redact(Render(stripped, spans, 0))
  {
    var chosen := ChooseTopFeature(speechId, predicted, rows);
    if chosen.None? {
      return None;
    }
    var feature := chosen.value;
    TopFeatureNamed(speechId, predicted, rows);
    var posSpans: seq<(int, int)> := [];
    if feature.1 == Pos {
      posSpans := RangeMerge.MergeSpans(posRanges);
      MergedOrderedMax(posRanges, |stripped|);
    }
    var marked := MarkFeature(stripped, feature, posSpans);
    r := Some(marked);
  }

  /** The end of add_spans for a chosen feature: splice the marker pairs around its spans,
      then redact years. */
  method MarkFeature(stripped: string, feature: (string, FeatureType), posSpans: seq<(int, int)>)
    returns (r: string)
    requires |feature.0| > 0
    requires feature.1 == Pos ==> Ordered(posSpans, |stripped|)
    ensures Chain(HighlightSpans(stripped, feature, posSpans), 0, |stripped|)
    ensures r == Redact(Render(stripped, HighlightSpans(stripped, feature, posSpans), 0))
  {
    var spans: seq<(int, int)>;
    if feature.1 == Pos {
      spans := posSpans;
    } else {
      spans := WordMatch.WordSpans(stripped, feature.0);
    }
    HighlightSpansChain(stripped, feature, posSpans);
    var spliced := Splice(stripped, spans);
    r := Redact(spliced);
  }

  // ---------------------------------------------------------------------------------------
  // populate_paragraphs

  /** A row of the paragraph table: paragraph text, speech id, index within the speech. */
  datatype ParRow = ParRow(par: string, speechId: int, parId: nat)

  const ParSep: string := "\n\n"

  /** The rows of one speech: its pieces between blank lines, numbered from 0. */
  function SpeechParagraphs(speech: string, speechId: int): seq<ParRow>
  {
    var pars := Split(speech, ParSep);
    seq(|pars|, i requires 0 <= i < |pars| => ParRow(pars[i], speechId, i))
  }

  /** The paragraph comprehension of populate_paragraphs, over all speeches in order. */
  function ParagraphTable(speeches: seq<string>, ids: seq<int>): seq<ParRow>
    requires |speeches| == |ids|
  {
    if speeches == [] then []
    else SpeechParagraphs(speeches[0], ids[0]) + ParagraphTable(speeches[1..], ids[1..])
  }

  function Pars(rows: seq<ParRow>): seq<string>
  {
    seq(|rows|, i requires 0 <= i < |rows| => rows[i].par)
  }

  /** A speech's paragraphs, joined with blank lines, give the speech back; none of them holds a
      blank line; they are numbered 0, 1, … in order. */
  lemma SpeechParagraphsFaithful(speech: string, speechId: int)
    ensures var rows := SpeechParagraphs(speech, speechId);
      |rows| > 0 && Join(Pars(rows), ParSep) == speech &&
      (forall i :: 0 <= i < |rows| ==> rows[i].parId == i && rows[i].speechId == speechId &&
                                       !Contains(rows[i].par, ParSep))
  {
    var rows := SpeechParagraphs(speech, speechId);
    var pars := Split(speech, ParSep);
    assert Pars(rows) == pars;
    JoinSplit(speech, ParSep);
    SplitPiecesFree(speech, ParSep);
    assert forall i :: 0 <= i < |pars| ==> pars[i] in pars;
  }

  /** Every speech contributes at least one paragraph row, so the table has at least as many
      rows as there are speeches. */
  lemma {:induction false} ParagraphTableSize(speeches: seq<string>, ids: seq<int>)
    requires |speeches| == |ids|
    ensures |ParagraphTable(speeches, ids)| >= |speeches|
  {
    if speeches != [] {
      ParagraphTableSize(speeches[1..], ids[1..]);
      SpeechParagraphsFaithful(speeches[0], ids[0]);
    }
  }
}
