/** The word-mode matcher of add_spans: `re.finditer` of the pattern
    `(^|[^a-zA-Z])(?P<w>WORD)([^a-zA-Z]|$)` with `re.IGNORECASE`, reporting the span of group
    `w` of every match. The boundary characters are part of each match, so a match consumes the
    non-letter that follows its word. */
module WordMatch {
  import opened Text

  /** A span `(start, end)` of the text, end exclusive. */
  type Span = (nat, nat)

  /** The word occurs at index `i`, ignoring case. */
  predicate WordAt(s: string, w: string, i: nat)
  {
    i + |w| <= |s| && LowerString(s[i..i + |w|]) == LowerString(w)
  }

  /** `([^a-zA-Z]|$)` can match at index `q`. */
  predicate TrailAt(s: string, q: nat)
  {
    q == |s| || (q < |s| && !IsLetter(s[q]))
  }

  /** Where a match whose word ends at `q` ends: after the boundary character, if there is one. */
  function TrailEnd(s: string, q: nat): nat
  {
    if q < |s| then q + 1 else q
  }

  /** An occurrence of the word at `i` with a non-letter or the string boundary on either side. */
  predicate Flanked(s: string, w: string, i: nat)
  {
    WordAt(s, w, i) && (i == 0 || !IsLetter(s[i - 1])) && TrailAt(s, i + |w|)
  }

  /** The match the search tries at index `p`: the group span and the end of the whole match.
      `^` is tried before `[^a-zA-Z]`, and only at index 0. */
  function MatchAt(s: string, w: string, p: nat): (r: Option<(Span, nat)>)
    ensures r.Some? ==> p + |w| <= r.value.1 <= r.value.0.1 + 1
    ensures r.Some? ==> p <= r.value.0.0 && r.value.0.1 == r.value.0.0 + |w| && Flanked(s, w, r.value.0.0)
  {
    if p == 0 && WordAt(s, w, 0) && TrailAt(s, |w|) then
      Some(((0, |w|), TrailEnd(s, |w|)))
    else if p < |s| && !IsLetter(s[p]) && WordAt(s, w, p + 1) && TrailAt(s, p + 1 + |w|) then
      Some(((p + 1, p + 1 + |w|), TrailEnd(s, p + 1 + |w|)))
    else None
  }

  /** The spans `finditer` reports when it resumes its search at index `p`. */
  function SpansFrom(s: string, w: string, p: nat): seq<Span>
    requires |w| > 0
    decreases |s| + 1 - p
  {
    if p > |s| then []
    else
      var m := MatchAt(s, w, p);
      if m.Some? then [m.value.0] + SpansFrom(s, w, m.value.1) else SpansFrom(s, w, p + 1)
  }

  /** The word spans of add_spans. */
  function WordSpans(s: string, w: string): seq<Span>
    requires |w| > 0
  {
    SpansFrom(s, w, 0)
  }

  /** Every reported span holds the word, ignoring case, between a non-letter or the string
      boundary on each side, and starts at or after the resumption point. */
  lemma {:induction false} SpansFromSound(s: string, w: string, p: nat)
    requires |w| > 0
    ensures forall sp :: sp in SpansFrom(s, w, p) ==>
      p <= sp.0 && sp.1 == sp.0 + |w| && Flanked(s, w, sp.0)
    decreases |s| + 1 - p
  {
    if p <= |s| {
      var m := MatchAt(s, w, p);
      if m.Some? {
        SpansFromSound(s, w, m.value.1);
      } else {
        SpansFromSound(s, w, p + 1);
      }
    }
  }

  /** Consecutive spans are at least two characters apart. */
  predicate Gapped(sps: seq<Span>)
  {
    forall k :: 0 <= k < |sps| - 1 ==> sps[k].1 + 2 <= sps[k + 1].0
  }

  lemma GappedCons(sp: Span, rest: seq<Span>)
    requires Gapped(rest) && (rest == [] || sp.1 + 2 <= rest[0].0)
    ensures Gapped([sp] + rest)
  {
    var sps := [sp] + rest;
    forall k | 1 <= k < |sps| - 1 ensures sps[k].1 + 2 <= sps[k + 1].0 {
      assert sps[k] == rest[k - 1] && sps[k + 1] == rest[k];
    }
  }

  /** Consecutive reported spans are at least two characters apart: the non-letter after one
      word is consumed, and the next match needs a non-letter of its own before its word. */
  lemma {:induction false} SpansFromGap(s: string, w: string, p: nat)
    requires |w| > 0
    ensures Gapped(SpansFrom(s, w, p))
    decreases |s| + 1 - p
  {
    if p <= |s| {
      var m := MatchAt(s, w, p);
      if m.Some? {
        var sp, e := m.value.0, m.value.1;
        SpansFromGap(s, w, e);
        var rest := SpansFrom(s, w, e);
        if rest != [] {
          SpansFromSound(s, w, e);
          SpansFromNotAtStart(s, w, e);
          assert rest[0] in rest;
        }
        GappedCons(sp, rest);
      } else {
        SpansFromGap(s, w, p + 1);
      }
    }
  }

  /** A search resumed after index 0 reports spans that start at least one past the resumption
      point: it needs a non-letter before the word. */
  lemma {:induction false} SpansFromNotAtStart(s: string, w: string, p: nat)
    requires |w| > 0 && p > 0
    ensures forall sp :: sp in SpansFrom(s, w, p) ==> p + 1 <= sp.0
    decreases |s| + 1 - p
  {
    if p <= |s| {
      var m := MatchAt(s, w, p);
      if m.Some? {
        SpansFromNotAtStart(s, w, m.value.1);
      } else {
        SpansFromNotAtStart(s, w, p + 1);
      }
    }
  }

  /** An occurrence the search at `p` can still reach: one that starts after `p`, or at 0 when the
      search starts at 0. */
  predicate Reachable(p: nat, i: nat)
  {
    i > p || i == p == 0
  }

  /** The occurrence at `i` lies in the stretch a reported span's match consumed. */
  predicate Shadowed(sps: seq<Span>, i: nat)
  {
    exists sp :: sp in sps && sp.0 < i <= sp.1 + 1
  }

  /** Every reachable flanked occurrence is reported or lies right next to a reported span. */
  lemma {:induction false} SpansFromComplete(s: string, w: string, p: nat, i: nat)
    requires |w| > 0 && Flanked(s, w, i) && Reachable(p, i)
    ensures (i, i + |w|) in SpansFrom(s, w, p) || Shadowed(SpansFrom(s, w, p), i)
    decreases |s| + 1 - p, 1
  {
    if MatchAt(s, w, p).Some? {
      CompleteAtMatch(s, w, p, i);
    } else {
      MatchNone(s, w, p, i);
      SpansFromComplete(s, w, p + 1, i);
    }
  }

  /** The case of a match at `p`. */
  lemma {:induction false} CompleteAtMatch(s: string, w: string, p: nat, i: nat)
    requires |w| > 0 && Flanked(s, w, i) && Reachable(p, i) && MatchAt(s, w, p).Some?
    ensures (i, i + |w|) in SpansFrom(s, w, p) || Shadowed(SpansFrom(s, w, p), i)
    decreases |s| + 1 - p, 0
  {
    var sp, e := MatchAt(s, w, p).value.0, MatchAt(s, w, p).value.1;
    MatchSome(s, w, p, i);
    if i <= sp.1 + 1 {
      FoundFirst(SpansFrom(s, w, p), sp, SpansFrom(s, w, e), i, |w|);
    } else {
      SpansFromComplete(s, w, e, i);
      FoundLater(SpansFrom(s, w, p), sp, SpansFrom(s, w, e), i, |w|);
    }
  }

  /** A match at `p`: the spans reported from `p` start with it, and an occurrence the search can
      reach either is the match or lies after its start. */
  lemma MatchSome(s: string, w: string, p: nat, i: nat)
    requires |w| > 0 && MatchAt(s, w, p).Some? && Flanked(s, w, i) && Reachable(p, i)
    ensures var (sp, e) := MatchAt(s, w, p).value;
      p < e <= |s| + 1 && SpansFrom(s, w, p) == [sp] + SpansFrom(s, w, e) &&
      sp.1 == sp.0 + |w| && e <= sp.1 + 1 && (sp.0 == i || sp.0 < i)
  {
    assert p == 0 && i == 0 ==> MatchAt(s, w, p).value.0 == (0, |w|);
  }

  /** The first span is the occurrence or shadows it. */
  lemma FoundFirst(out: seq<Span>, sp: Span, rest: seq<Span>, i: nat, n: nat)
    requires out == [sp] + rest && sp.1 == sp.0 + n && (sp.0 == i || sp.0 < i) && i <= sp.1 + 1
    ensures (i, i + n) in out || Shadowed(out, i)
  {
    assert out[0] == sp;
    if sp.0 != i {
      ShadowedAt(out, sp, i);
    }
  }

  /** What the later spans report carries over to all spans. */
  lemma FoundLater(out: seq<Span>, sp: Span, rest: seq<Span>, i: nat, n: nat)
    requires out == [sp] + rest && ((i, i + n) in rest || Shadowed(rest, i))
    ensures (i, i + n) in out || Shadowed(out, i)
  {
    if (i, i + n) !in rest {
      var x :| x in rest && x.0 < i <= x.1 + 1;
      ShadowedAt(out, x, i);
    }
  }

  lemma ShadowedAt(sps: seq<Span>, sp: Span, i: nat)
    requires sp in sps && sp.0 < i <= sp.1 + 1
    ensures Shadowed(sps, i)
  {
  }

  /** No match at `p`: the search moves on, and the occurrence is still reachable from `p + 1`,
      since a flanked occurrence at `p` or `p + 1` would have matched. */
  lemma MatchNone(s: string, w: string, p: nat, i: nat)
    requires |w| > 0 && MatchAt(s, w, p).None? && Flanked(s, w, i) && Reachable(p, i)
    ensures SpansFrom(s, w, p) == SpansFrom(s, w, p + 1) && Reachable(p + 1, i)
  {
    assert i + |w| <= |s|;
    assert i == p + 1 ==> MatchAt(s, w, p).Some?;
    assert i == 0 ==> MatchAt(s, w, p).Some?;
  }

  /** Reported spans are exactly the flanked occurrences that no reported span shadows. */
  lemma WordSpansExact(s: string, w: string, i: nat)
    requires |w| > 0
    ensures (i, i + |w|) in WordSpans(s, w) <==> Flanked(s, w, i) && !Shadowed(WordSpans(s, w), i)
  {
    if (i, i + |w|) in WordSpans(s, w) {
      ReportedNotShadowed(s, w, i);
    } else if Flanked(s, w, i) {
      SpansFromComplete(s, w, 0, i);
    }
  }

  lemma ReportedNotShadowed(s: string, w: string, i: nat)
    requires |w| > 0 && (i, i + |w|) in WordSpans(s, w)
    ensures Flanked(s, w, i) && !Shadowed(WordSpans(s, w), i)
  {
    var sps := WordSpans(s, w);
    SpansFromSound(s, w, 0);
    SpansFromGap(s, w, 0);
    var k :| 0 <= k < |sps| && sps[k] == (i, i + |w|);
    assert forall j :: 0 <= j < |sps| ==> sps[j] in sps;
    GapNotShadowed(sps, k);
  }

  /** In spans with gaps between neighbours, no span's start is shadowed by another span. */
  lemma GapNotShadowed(sps: seq<Span>, k: nat)
    requires forall j :: 0 <= j < |sps| ==> sps[j].0 <= sps[j].1
    requires Gapped(sps)
    requires k < |sps|
    ensures !Shadowed(sps, sps[k].0)
  {
    forall l | 0 <= l < |sps| ensures !(sps[l].0 < sps[k].0 <= sps[l].1 + 1) {
      if l < k {
        AscendingSpans(sps, l, k);
      } else if k < l {
        AscendingSpans(sps, k, l);
      }
    }
  }

  /** The gap between neighbours extends to any two spans. */
  lemma {:induction false} AscendingSpans(sps: seq<Span>, k: nat, l: nat)
    requires forall j :: 0 <= j < |sps| ==> sps[j].0 <= sps[j].1
    requires Gapped(sps)
    requires k < l < |sps|
    ensures sps[k].1 + 2 <= sps[l].0
    decreases l - k
  {
    if k + 1 < l {
      AscendingSpans(sps, k + 1, l);
    }
  }

  /** The quirk: in "tax tax" the second occurrence is flanked but not reported, since the
      first match consumed the space before it. */
  lemma ConsumedBoundary()
    ensures WordSpans("tax tax", "tax") == [(0, 3)]
    ensures Flanked("tax tax", "tax", 4)
  {
    var s, w := "tax tax", "tax";
    assert WordAt(s, w, 0);
    assert MatchAt(s, w, 0) == Some(((0, 3), 4));
    assert WordAt(s, w, 4) by {
      assert s[4..7] == w;
    }
    forall p | 4 <= p <= 7 ensures MatchAt(s, w, p).None? {
      assert !WordAt(s, w, p + 1);
    }
    assert SpansFrom(s, w, 7) == [];
    assert SpansFrom(s, w, 6) == [];
    assert SpansFrom(s, w, 5) == [];
    assert SpansFrom(s, w, 4) == [];
  }
}
