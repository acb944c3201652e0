/** Feature names: how a feature's display ("long") name is built from its vocabulary ("short")
    name, and how a long name is classified into a feature type. */
module Features {
  import opened Text

  datatype FeatureType = Word | Pos | Intercept

  /** Short and long name of the per-document intercept row. */
  const InterceptName: string := "FIXED INTERCEPT"

  /** determine_feature_type: classification by substring, "Word:" taking precedence. */
  function DetermineFeatureType(longName: string): FeatureType
  {
    if Contains(longName, "Word:") then Word
    else if Contains(longName, "POS Pair:") then Pos
    else Intercept
  }

  /** create_pretty_word */
  function PrettyWord(word: string): string
  {
    "Word: \"" + word + "\""
  }

  lemma PrettyWordIsWord(word: string)
    ensures DetermineFeatureType(PrettyWord(word)) == Word
  {
    assert OccursAt(PrettyWord(word), "Word:", 0);
  }

  lemma InterceptNameIsIntercept()
    ensures DetermineFeatureType(InterceptName) == Intercept
  {
    assert forall i :: 0 <= i < |InterceptName| ==> InterceptName[i] != ':';
    MissingCharNotContained(InterceptName, "Word:", 4);
    MissingCharNotContained(InterceptName, "POS Pair:", 8);
  }

  // ---------------------------------------------------------------------------------------
  // Part-of-speech pairs

  /** The tag dictionary of create_pretty_pos_pairs, in the order the source lists it. The key
      written `PRP\$` in the source is a regular expression for the four characters `PRP$`. */
  const PosDict: seq<(string, string)> := [
    ("CC", "conjunction"),
    ("CD", "number"),
    ("DT", "determiner"),
    ("EX", "existential"),
    ("FW", "foreign"),
    ("IN", "preposition"),
    ("JJ", "adjective"),
    ("JJR", "comparative adjective"),
    ("JJS", "superlative adjective"),
    ("MD", "modal"),
    ("NN", "singular noun"),
    ("NNS", "plural noun"),
    ("NNP", "singular proper noun"),
    ("NNPS", "plural proper noun"),
    ("PDT", "predeterminer"),
    ("POS", "possessive ending"),
    ("PRP", "personal pronoun"),
    ("PRP$", "possessive pronoun"),
    ("RB", "adverb"),
    ("RBR", "compariative adverb"),
    ("RBS", "superlative adverb"),
    ("RP", "particle"),
    ("TO", "to"),
    ("UH", "interjection"),
    ("VB", "base verb"),
    ("VBD", "past verb"),
    ("VBG", "present particple verb"),
    ("VBN", "past participle verb"),
    ("VBP", "non-3rd person sing present verb"),
    ("VBZ", "3rd person singular present verb"),
    ("WDT", "wh-determiner"),
    ("WP", "wh-pronoun"),
    ("WP$", "possessive wh-pronoun"),
    ("WRB", "Wh-adverb")
  ]

  /** `pos_pair.replace(" ", ", ")` */
  function CommaSeparated(pair: string): (r: string)
  {
    if pair == [] then []
    else (if pair[0] == ' ' then ", " else [pair[0]]) + CommaSeparated(pair[1..])
  }

  /** The pattern `(?<= )KEY(?=\))|(?<=\()KEY(?=,)` matches at index `i`: the key sits between
      a space and `)`, or between `(` and `,`. */
  predicate TagAt(s: string, key: string, i: nat)
  {
    1 <= i && i + |key| < |s| && s[i..i + |key|] == key &&
    ((s[i - 1] == ' ' && s[i + |key|] == ')') || (s[i - 1] == '(' && s[i + |key|] == ','))
  }

  /** `re.sub` of that pattern by `val`, scanning from index `i`: matches are replaced from left
      to right and never overlap; the lookarounds inspect the unmodified string. */
  function SubTagFrom(s: string, key: string, val: string, i: nat): string
    requires |key| > 0
    decreases |s| - i
  {
    if i >= |s| then []
    else if TagAt(s, key, i) then val + SubTagFrom(s, key, val, i + |key|)
    else [s[i]] + SubTagFrom(s, key, val, i + 1)
  }

  function SubTag(s: string, key: string, val: string): string
    requires |key| > 0
  {
    SubTagFrom(s, key, val, 0)
  }

  /** Applying the substitution of every dictionary entry, in dictionary order. */
  function Translate(s: string, d: seq<(string, string)>): string
    requires forall e :: e in d ==> |e.0| > 0
  {
    if d == [] then s
    else
      var e := d[|d| - 1];
      SubTag(Translate(s, d[..|d| - 1]), e.0, e.1)
  }

  /** The display name create_pretty_pos_pairs returns, for a dictionary iterated in order `d`. */
  function PrettyPosPairWith(pair: string, d: seq<(string, string)>): string
    requires forall e :: e in d ==> |e.0| > 0
  {
    "POS Pair: " + Translate("(" + CommaSeparated(pair) + ")", d)
  }

  /** create_pretty_pos_pairs: the pair with commas and parentheses, each dictionary key
      substituted in turn. */
  method CreatePrettyPosPairs(pair: string) returns (pretty: string)
    ensures pretty == PrettyPosPairWith(pair, PosDict)
  {
    PosDictWellFormed();
    var newPair := SubstituteTags("(" + CommaSeparated(pair) + ")", PosDict);
    pretty := "POS Pair: " + newPair;
  }

  /** The loop of create_pretty_pos_pairs over the dictionary entries, in order `d`. */
  method SubstituteTags(start: string, d: seq<(string, string)>) returns (newPair: string)
    requires forall e :: e in d ==> |e.0| > 0
    ensures newPair == Translate(start, d)
  {
    newPair := start;
    var k := 0;
    while k < |d|
      invariant 0 <= k <= |d|
      invariant newPair == Translate(start, d[..k])
    {
      var (key, val) := d[k];
      assert d[..k + 1][..k] == d[..k];
      newPair := SubTag(newPair, key, val);
      k := k + 1;
    }
    assert d[..k] == d;
  }

  // ---------------------------------------------------------------------------------------
  // What the substitution does to a well-formed pair

  /** A dictionary key: upper-case letters and `$`. */
  predicate IsTagKey(k: string)
  {
    |k| > 0 && forall i :: 0 <= i < |k| ==> 'A' <= k[i] <= 'Z' || k[i] == '$'
  }

  predicate IsLowerLetter(c: char) { 'a' <= c <= 'z' }

  /** A dictionary value: no parenthesis, comma or colon, at least one lower-case letter, and a
      lower-case letter after every space. Hence no value equals a key, and no key can match
      the tail of a value. */
  predicate IsTagValue(v: string)
  {
    (exists i :: 0 <= i < |v| && IsLowerLetter(v[i])) && NoSpecial(v) &&
    forall i :: 0 <= i < |v| ==> LowerAfterSpace(v, i)
  }

  /** No parenthesis, comma or colon. */
  predicate NoSpecial(v: string)
  {
    forall i :: 0 <= i < |v| ==> v[i] != '(' && v[i] != ')' && v[i] != ',' && v[i] != ':'
  }

  /** A space at index `i` of `v` is followed by a lower-case letter. */
  predicate LowerAfterSpace(v: string, i: nat)
    requires i < |v|
  {
    v[i] == ' ' ==> i + 1 < |v| && IsLowerLetter(v[i + 1])
  }

  /** An entry of a well-formed dictionary. */
  predicate IsTagEntry(e: (string, string))
  {
    IsTagKey(e.0) && IsTagValue(e.1)
  }

  predicate WellFormedDict(d: seq<(string, string)>)
  {
    forall e :: e in d ==> IsTagEntry(e)
  }

  /** Checked entry by entry: each entry lemma names the index of a lower-case letter of its
      value. */
  lemma PosDictWellFormed()
    ensures WellFormedDict(PosDict)
  {
    forall i | 0 <= i < |PosDict| ensures IsTagEntry(PosDict[i]) {
      if i == 0 { PosEntry00();
      } else if i == 1 { PosEntry01();
      } else if i == 2 { PosEntry02();
      } else if i == 3 { PosEntry03();
      } else if i == 4 { PosEntry04();
      } else if i == 5 { PosEntry05();
      } else if i == 6 { PosEntry06();
      } else if i == 7 { PosEntry07();
      } else if i == 8 { PosEntry08();
      } else if i == 9 { PosEntry09();
      } else if i == 10 { PosEntry10();
      } else if i == 11 { PosEntry11();
      } else if i == 12 { PosEntry12();
      } else if i == 13 { PosEntry13();
      } else if i == 14 { PosEntry14();
      } else if i == 15 { PosEntry15();
      } else if i == 16 { PosEntry16();
      } else if i == 17 { PosEntry17();
      } else if i == 18 { PosEntry18();
      } else if i == 19 { PosEntry19();
      } else if i == 20 { PosEntry20();
      } else if i == 21 { PosEntry21();
      } else if i == 22 { PosEntry22();
      } else if i == 23 { PosEntry23();
      } else if i == 24 { PosEntry24();
      } else if i == 25 { PosEntry25();
      } else if i == 26 { PosEntry26();
      } else if i == 27 { PosEntry27();
      } else if i == 28 { PosEntry28();
      } else if i == 29 { PosEntry29();
      } else if i == 30 { PosEntry30();
      } else if i == 31 { PosEntry31();
      } else if i == 32 { PosEntry32();
      } else { PosEntry33(); }
    }
    forall e | e in PosDict ensures IsTagEntry(e) {
      var i :| 0 <= i < |PosDict| && PosDict[i] == e;
    }
  }

  lemma PosEntry00() ensures IsTagEntry(PosDict[0]) { assert IsLowerLetter(PosDict[0].1[0]); }
  lemma PosEntry01() ensures IsTagEntry(PosDict[1]) { assert IsLowerLetter(PosDict[1].1[0]); }
  lemma PosEntry02() ensures IsTagEntry(PosDict[2]) { assert IsLowerLetter(PosDict[2].1[0]); }
  lemma PosEntry03() ensures IsTagEntry(PosDict[3]) { assert IsLowerLetter(PosDict[3].1[0]); }
  lemma PosEntry04() ensures IsTagEntry(PosDict[4]) { assert IsLowerLetter(PosDict[4].1[0]); }
  lemma PosEntry05() ensures IsTagEntry(PosDict[5]) { assert IsLowerLetter(PosDict[5].1[0]); }
  lemma PosEntry06() ensures IsTagEntry(PosDict[6]) { assert IsLowerLetter(PosDict[6].1[0]); }
  lemma PosEntry07() ensures IsTagEntry(PosDict[7]) { assert IsLowerLetter(PosDict[7].1[0]); }
  lemma PosEntry08() ensures IsTagEntry(PosDict[8]) { assert IsLowerLetter(PosDict[8].1[0]); }
  lemma PosEntry09() ensures IsTagEntry(PosDict[9]) { assert IsLowerLetter(PosDict[9].1[0]); }
  lemma PosEntry10() ensures IsTagEntry(PosDict[10]) { assert IsLowerLetter(PosDict[10].1[0]); }
  lemma PosEntry11() ensures IsTagEntry(PosDict[11]) { assert IsLowerLetter(PosDict[11].1[0]); }
  lemma PosEntry12() ensures IsTagEntry(PosDict[12]) { assert IsLowerLetter(PosDict[12].1[0]); }
  lemma PosEntry13() ensures IsTagEntry(PosDict[13]) { assert IsLowerLetter(PosDict[13].1[0]); }
  lemma PosEntry14() ensures IsTagEntry(PosDict[14]) { assert IsLowerLetter(PosDict[14].1[0]); }
  lemma PosEntry15() ensures IsTagEntry(PosDict[15]) { assert IsLowerLetter(PosDict[15].1[0]); }
  lemma PosEntry16() ensures IsTagEntry(PosDict[16]) { assert IsLowerLetter(PosDict[16].1[0]); }
  lemma PosEntry17() ensures IsTagEntry(PosDict[17]) { assert IsLowerLetter(PosDict[17].1[0]); }
  lemma PosEntry18() ensures IsTagEntry(PosDict[18]) { assert IsLowerLetter(PosDict[18].1[0]); }
  lemma PosEntry19() ensures IsTagEntry(PosDict[19]) { assert IsLowerLetter(PosDict[19].1[0]); }
  lemma PosEntry20() ensures IsTagEntry(PosDict[20]) { assert IsLowerLetter(PosDict[20].1[0]); }
  lemma PosEntry21() ensures IsTagEntry(PosDict[21]) { assert IsLowerLetter(PosDict[21].1[0]); }
  lemma PosEntry22() ensures IsTagEntry(PosDict[22]) { assert IsLowerLetter(PosDict[22].1[0]); }
  lemma PosEntry23() ensures IsTagEntry(PosDict[23]) { assert IsLowerLetter(PosDict[23].1[0]); }
  lemma PosEntry24() ensures IsTagEntry(PosDict[24]) { assert IsLowerLetter(PosDict[24].1[0]); }
  lemma PosEntry25() ensures IsTagEntry(PosDict[25]) { assert IsLowerLetter(PosDict[25].1[0]); }
  lemma PosEntry26() ensures IsTagEntry(PosDict[26]) {
    PosValue26();
    assert IsLowerLetter(PosDict[26].1[0]);
  }
  lemma PosValue26() ensures NoSpecial(PosDict[26].1) {}
  lemma PosEntry27() ensures IsTagEntry(PosDict[27]) {
    PosValue27();
    assert IsLowerLetter(PosDict[27].1[0]);
  }
  lemma PosValue27() ensures NoSpecial(PosDict[27].1) {}
  lemma PosEntry28() ensures IsTagEntry(PosDict[28]) {
    PosValue28();
    assert IsLowerLetter(PosDict[28].1[0]);
  }
  lemma PosValue28() ensures NoSpecial(PosDict[28].1) {}
  lemma PosEntry29() ensures IsTagEntry(PosDict[29]) {
    PosValue29();
    assert IsLowerLetter(PosDict[29].1[1]);
  }
  lemma PosValue29() ensures NoSpecial(PosDict[29].1) {}
  lemma PosEntry30() ensures IsTagEntry(PosDict[30]) { assert IsLowerLetter(PosDict[30].1[0]); }
  lemma PosEntry31() ensures IsTagEntry(PosDict[31]) { assert IsLowerLetter(PosDict[31].1[0]); }
  lemma PosEntry32() ensures IsTagEntry(PosDict[32]) { assert IsLowerLetter(PosDict[32].1[0]); }
  lemma PosEntry33() ensures IsTagEntry(PosDict[33]) { assert IsLowerLetter(PosDict[33].1[1]); }

  /** The value of the first entry whose key is `x`, or `x` itself. */
  function Lookup(d: seq<(string, string)>, x: string): string
  {
    if d == [] then x
    else if d[0].0 == x then d[0].1
    else Lookup(d[1..], x)
  }

  predicate HasKey(d: seq<(string, string)>, x: string)
  {
    exists e :: e in d && e.0 == x
  }

  lemma {:induction false} LookupSnoc(d: seq<(string, string)>, e: (string, string), x: string)
    ensures Lookup(d + [e], x) == if HasKey(d, x) then Lookup(d, x) else if e.0 == x then e.1 else x
    ensures HasKey(d + [e], x) <==> HasKey(d, x) || e.0 == x
  {
    if d != [] {
      assert (d + [e])[1..] == d[1..] + [e];
      LookupSnoc(d[1..], e, x);
      assert HasKey(d, x) <==> d[0].0 == x || HasKey(d[1..], x) by {
        assert d == [d[0]] + d[1..];
      }
    }
  }

  lemma {:induction false} LookupFound(d: seq<(string, string)>, x: string)
    requires HasKey(d, x)
    ensures exists e :: e in d && e.0 == x && Lookup(d, x) == e.1
  {
    if d[0].0 != x {
      assert d == [d[0]] + d[1..];
      assert HasKey(d[1..], x);
      LookupFound(d[1..], x);
    }
  }

  /** A tag as `pos_tokenizer` yields it: no space, parenthesis or comma. */
  predicate IsRawTag(t: string)
  {
    forall i :: 0 <= i < |t| ==> t[i] != ' ' && t[i] != '(' && t[i] != ')' && t[i] != ','
  }

  /** The part of a bracketed pair that holds the first tag: no parenthesis and no comma. */
  predicate IsHeadPart(a: string)
  {
    forall i :: 0 <= i < |a| ==> a[i] != '(' && a[i] != ')' && a[i] != ','
  }

  /** The part of a bracketed pair that holds the last tag, with respect to key `k`: no
      parenthesis, and no space followed by exactly `k` up to the end. */
  predicate IsTailPart(z: string, k: string)
  {
    (forall i :: 0 <= i < |z| ==> z[i] != '(' && z[i] != ')') &&
    forall i :: 1 <= i <= |z| && z[i - 1] == ' ' ==> z[i..] != k
  }

  /** The separator between first and last tag: starts with a comma, ends with a space. */
  predicate IsMiddlePart(m: string)
  {
    |m| >= 2 && m[0] == ',' && m[|m| - 1] == ' ' &&
    forall i :: 0 <= i < |m| ==> m[i] != '(' && m[i] != ')'
  }

  /** Bracket a first, separated and last part. */
  function Bracketed(a: string, m: string, z: string): string
  {
    "(" + a + m + z + ")"
  }

  lemma {:induction false} CopyRun(s: string, key: string, val: string, i: nat, j: nat)
    requires |key| > 0 && i <= j <= |s|
    requires forall p :: i <= p < j ==> !TagAt(s, key, p)
    ensures SubTagFrom(s, key, val, i) == s[i..j] + SubTagFrom(s, key, val, j)
    decreases j - i
  {
    if i < j {
      CopyStep(s, key, val, i);
      CopyRun(s, key, val, i + 1, j);
      SliceCons(s, i, j, SubTagFrom(s, key, val, j));
    }
  }

  /** Where the pattern does not match, the substitution copies one character. */
  lemma CopyStep(s: string, key: string, val: string, i: nat)
    requires |key| > 0 && i < |s| && !TagAt(s, key, i)
    ensures SubTagFrom(s, key, val, i) == [s[i]] + SubTagFrom(s, key, val, i + 1)
  {
  }

  lemma SliceCons(s: string, i: nat, j: nat, t: string)
    requires i < j <= |s|
    ensures [s[i]] + (s[i + 1..j] + t) == s[i..j] + t
  {
    assert s[i..j] == [s[i]] + s[i + 1..j];
  }

  /** A part after one substitution step: the value when the part is the key. */
  function Replaced(x: string, k: string, v: string): string
  {
    if x == k then v else x
  }

  /** Where the parts of a bracketed pair sit. */
  predicate Shape(s: string, a: string, m: string, z: string)
  {
    |s| == |a| + |m| + |z| + 2 && s[0] == '(' && s[|s| - 1] == ')' &&
    s[1..1 + |a|] == a && s[1 + |a|..1 + |a| + |m|] == m && s[1 + |a| + |m|..|s| - 1] == z
  }

  lemma BracketedShape(a: string, m: string, z: string)
    ensures Shape(Bracketed(a, m, z), a, m, z)
  {
    var s := Bracketed(a, m, z);
    assert s == "(" + a + m + z + ")";
  }

  lemma ShapeChars(s: string, a: string, m: string, z: string)
    requires Shape(s, a, m, z)
    ensures forall i :: 1 <= i < 1 + |a| ==> s[i] == a[i - 1]
    ensures forall i :: 1 + |a| <= i < 1 + |a| + |m| ==> s[i] == m[i - 1 - |a|]
    ensures forall i :: 1 + |a| + |m| <= i < |s| - 1 ==> s[i] == z[i - 1 - |a| - |m|]
  {
    forall i | 1 <= i < 1 + |a| ensures s[i] == a[i - 1] {
      assert s[1..1 + |a|][i - 1] == s[i];
    }
    forall i | 1 + |a| <= i < 1 + |a| + |m| ensures s[i] == m[i - 1 - |a|] {
      assert s[1 + |a|..1 + |a| + |m|][i - 1 - |a|] == s[i];
    }
    forall i | 1 + |a| + |m| <= i < |s| - 1 ensures s[i] == z[i - 1 - |a| - |m|] {
      assert s[1 + |a| + |m|..|s| - 1][i - 1 - |a| - |m|] == s[i];
    }
  }

  /** Index 1 matches exactly when the first part is the key. */
  lemma MatchAtHead(s: string, a: string, m: string, z: string, k: string)
    requires Shape(s, a, m, z) && IsTagKey(k) && IsHeadPart(a) && IsMiddlePart(m)
    ensures TagAt(s, k, 1) <==> a == k
  {
    ShapeChars(s, a, m, z);
    assert s[1 + |a|] == ',';
    if a == k {
      assert s[1..1 + |k|] == a;
    } else if |k| < |a| {
      assert s[1 + |k|] == a[|k|];
    } else if |k| == |a| {
      assert s[1..1 + |k|] == a;
    } else if 1 + |k| < |s| {
      assert s[1..1 + |k|][|a|] == s[1 + |a|];
    }
  }

  /** The index where the last part starts matches exactly when the last part is the key. */
  lemma MatchAtTail(s: string, a: string, m: string, z: string, k: string)
    requires Shape(s, a, m, z) && IsTagKey(k) && IsMiddlePart(m) && IsTailPart(z, k)
    ensures TagAt(s, k, 1 + |a| + |m|) <==> z == k
  {
    var pz := 1 + |a| + |m|;
    ShapeChars(s, a, m, z);
    assert s[pz - 1] == ' ';
    if |k| == |z| {
      assert s[pz..pz + |k|] == z;
    } else if |k| < |z| {
      assert s[pz + |k|] == z[|k|];
    }
  }

  /** Inside the brackets there is no parenthesis. */
  lemma NoParenInside(s: string, a: string, m: string, z: string)
    requires Shape(s, a, m, z) && IsHeadPart(a) && IsMiddlePart(m)
    requires forall i :: 0 <= i < |z| ==> z[i] != '(' && z[i] != ')'
    ensures forall i :: 1 <= i < |s| - 1 ==> s[i] != '(' && s[i] != ')'
  {
    ShapeChars(s, a, m, z);
    forall i | 1 <= i < |s| - 1 ensures s[i] != '(' && s[i] != ')' {
      if i < 1 + |a| {
        assert s[i] == a[i - 1];
      } else if i < 1 + |a| + |m| {
        assert s[i] == m[i - 1 - |a|];
      } else {
        assert s[i] == z[i - 1 - |a| - |m|];
      }
    }
  }

  /** No other index matches. */
  lemma NoOtherMatch(s: string, a: string, m: string, z: string, k: string, p: nat)
    requires Shape(s, a, m, z) && IsTagKey(k) && IsHeadPart(a) && IsMiddlePart(m) && IsTailPart(z, k)
    requires 2 <= p < |s| && p != 1 + |a| + |m|
    ensures !TagAt(s, k, p)
  {
    var pz := 1 + |a| + |m|;
    NoParenInside(s, a, m, z);
    assert s[pz - 1] == ' ' by {
      assert s[1 + |a|..pz][|m| - 1] == s[pz - 1];
    }
    if p < pz && p + |k| == |s| - 1 {
      assert s[p..p + |k|][pz - 1 - p] == s[pz - 1];
    }
    if pz < p && p + |k| == |s| - 1 {
      assert s[p..p + |k|] == z[p - pz..];
      assert s[p - 1] == z[p - 1 - pz] by {
        assert s[pz..|s| - 1][p - 1 - pz] == s[p - 1];
      }
    }
  }

  /** The substitution over the last part and the closing bracket; `rest` is what it yields
      from the index where the last part starts. */
  lemma SubTagTail(s: string, a: string, m: string, z: string, k: string, v: string, rest: string)
    requires Shape(s, a, m, z) && IsTagKey(k) && IsHeadPart(a) && IsMiddlePart(m) && IsTailPart(z, k)
    requires rest == SubTagFrom(s, k, v, 1 + |a| + |m|)
    ensures rest == Replaced(z, k, v) + ")"
  {
    MatchAtTail(s, a, m, z, k);
    NoMatchInTail(s, a, m, z, k);
    TailSlices(s, a, m, z);
    TailRun(s, k, v, z, 1 + |a| + |m|, rest);
  }

  /** No index after the start of the last part matches. */
  lemma NoMatchInTail(s: string, a: string, m: string, z: string, k: string)
    requires Shape(s, a, m, z) && IsTagKey(k) && IsHeadPart(a) && IsMiddlePart(m) && IsTailPart(z, k)
    ensures forall p :: 1 + |a| + |m| < p < |s| ==> !TagAt(s, k, p)
  {
    forall p | 1 + |a| + |m| < p < |s| ensures !TagAt(s, k, p) {
      NoOtherMatch(s, a, m, z, k, p);
    }
  }

  lemma TailSlices(s: string, a: string, m: string, z: string)
    requires Shape(s, a, m, z)
    ensures s[1 + |a| + |m|..|s|] == z + ")"
    ensures s[1 + |a| + |m| + |z|..|s|] == ")"
  {
    assert s[1 + |a| + |m|..|s|] == s[1 + |a| + |m|..|s| - 1] + s[|s| - 1..|s|];
  }

  /** The run from the last part to the end: a match where the last part starts exactly when
      it is the key, and no match after it. */
  lemma TailRun(s: string, k: string, v: string, z: string, j: nat, rest: string)
    requires |k| > 0 && j + |z| + 1 == |s| && (TagAt(s, k, j) <==> z == k)
    requires s[j..|s|] == z + ")" && s[j + |z|..|s|] == ")"
    requires forall p :: j < p < |s| ==> !TagAt(s, k, p)
    requires rest == SubTagFrom(s, k, v, j)
    ensures rest == Replaced(z, k, v) + ")"
  {
    if z == k {
      CopyRun(s, k, v, j + |k|, |s|);
    } else {
      CopyRun(s, k, v, j, |s|);
    }
  }

  /** The substitution over the first part and the separator; `head` is what it yields from
      index 1, `rest` what it yields from the index where the last part starts. */
  lemma SubTagHead(s: string, a: string, m: string, z: string, k: string, v: string, head: string, rest: string)
    requires Shape(s, a, m, z) && IsTagKey(k) && IsHeadPart(a) && IsMiddlePart(m) && IsTailPart(z, k)
    requires head == SubTagFrom(s, k, v, 1) && rest == SubTagFrom(s, k, v, 1 + |a| + |m|)
    ensures head == Replaced(a, k, v) + m + rest
  {
    MatchAtHead(s, a, m, z, k);
    NoMatchInHead(s, a, m, z, k);
    HeadRun(s, a, m, z, k, v, head, rest);
  }

  /** Only index 1 can match before the last part. */
  lemma NoMatchInHead(s: string, a: string, m: string, z: string, k: string)
    requires Shape(s, a, m, z) && IsTagKey(k) && IsHeadPart(a) && IsMiddlePart(m) && IsTailPart(z, k)
    ensures forall p :: 2 <= p < 1 + |a| + |m| ==> !TagAt(s, k, p)
  {
    forall p | 2 <= p < 1 + |a| + |m| ensures !TagAt(s, k, p) {
      NoOtherMatch(s, a, m, z, k, p);
    }
  }

  lemma HeadSlices(s: string, a: string, m: string, z: string)
    requires Shape(s, a, m, z)
    ensures s[1 + |a|..1 + |a| + |m|] == m
    ensures s[1..1 + |a| + |m|] == a + m
  {
    assert s[1..1 + |a| + |m|] == s[1..1 + |a|] + s[1 + |a|..1 + |a| + |m|];
  }

  /** The run before the last part: a match at index 1 exactly when the first part is the key,
      and no match after it. */
  lemma HeadRun(s: string, a: string, m: string, z: string, k: string, v: string, head: string, rest: string)
    requires |k| > 0 && Shape(s, a, m, z) && (TagAt(s, k, 1) <==> a == k)
    requires forall p :: 2 <= p < 1 + |a| + |m| ==> !TagAt(s, k, p)
    requires head == SubTagFrom(s, k, v, 1) && rest == SubTagFrom(s, k, v, 1 + |a| + |m|)
    ensures head == Replaced(a, k, v) + m + rest
  {
    if a == k {
      HeadRunKey(s, a, m, z, k, v, head, rest);
    } else {
      HeadRunPlain(s, a, m, z, k, v, head, rest);
    }
  }

  lemma HeadRunKey(s: string, a: string, m: string, z: string, k: string, v: string, head: string, rest: string)
    requires |k| > 0 && Shape(s, a, m, z) && TagAt(s, k, 1) && a == k
    requires forall p :: 2 <= p < 1 + |a| + |m| ==> !TagAt(s, k, p)
    requires head == SubTagFrom(s, k, v, 1) && rest == SubTagFrom(s, k, v, 1 + |a| + |m|)
    ensures head == v + m + rest
  {
    HeadSlices(s, a, m, z);
    HeadIsKey(s, k, v, m, 1 + |a| + |m|, head, rest);
  }

  lemma HeadRunPlain(s: string, a: string, m: string, z: string, k: string, v: string, head: string, rest: string)
    requires |k| > 0 && Shape(s, a, m, z) && !TagAt(s, k, 1)
    requires forall p :: 2 <= p < 1 + |a| + |m| ==> !TagAt(s, k, p)
    requires head == SubTagFrom(s, k, v, 1) && rest == SubTagFrom(s, k, v, 1 + |a| + |m|)
    ensures head == a + m + rest
  {
    HeadSlices(s, a, m, z);
    HeadIsPlain(s, k, v, a + m, 1 + |a| + |m|, head, rest);
  }

  /** The key at index 1, then a run without matches. */
  lemma HeadIsKey(s: string, k: string, v: string, m: string, j: nat, head: string, rest: string)
    requires |k| > 0 && TagAt(s, k, 1) && 1 + |k| + |m| == j <= |s| && s[1 + |k|..j] == m
    requires forall p :: 1 + |k| <= p < j ==> !TagAt(s, k, p)
    requires head == SubTagFrom(s, k, v, 1) && rest == SubTagFrom(s, k, v, j)
    ensures head == v + m + rest
  {
    CopyRun(s, k, v, 1 + |k|, j);
    Assoc3(v, m, rest);
  }

  /** A run without matches from index 1. */
  lemma HeadIsPlain(s: string, k: string, v: string, am: string, j: nat, head: string, rest: string)
    requires |k| > 0 && 1 + |am| == j <= |s| && s[1..j] == am
    requires !TagAt(s, k, 1) && forall p :: 2 <= p < j ==> !TagAt(s, k, p)
    requires head == SubTagFrom(s, k, v, 1) && rest == SubTagFrom(s, k, v, j)
    ensures head == am + rest
  {
    CopyRun(s, k, v, 1, j);
  }

  lemma Assoc3(x: string, y: string, z: string)
    ensures x + (y + z) == x + y + z
  {
  }

  /** One substitution step on a bracketed pair: only a first or last part that equals the key
      is replaced; the separator is untouched. `out` is the substituted pair. */
  lemma SubTagBracketed(a: string, m: string, z: string, k: string, v: string, out: string)
    requires IsTagKey(k) && IsHeadPart(a) && IsMiddlePart(m) && IsTailPart(z, k)
    requires out == SubTag(Bracketed(a, m, z), k, v)
    ensures out == Bracketed(Replaced(a, k, v), m, Replaced(z, k, v))
  {
    var s := Bracketed(a, m, z);
    BracketedShape(a, m, z);
    var head, rest := SubTagFrom(s, k, v, 1), SubTagFrom(s, k, v, 1 + |a| + |m|);
    SubTagHead(s, a, m, z, k, v, head, rest);
    SubTagTail(s, a, m, z, k, v, rest);
    SubTagFirst(s, k, v, out, head);
    Assemble(out, head, rest, Replaced(a, k, v), m, Replaced(z, k, v));
  }

  /** No match starts at index 0, which has no left neighbour. */
  lemma SubTagFirst(s: string, k: string, v: string, out: string, head: string)
    requires |k| > 0 && |s| > 0 && s[0] == '('
    requires out == SubTag(s, k, v) && head == SubTagFrom(s, k, v, 1)
    ensures out == "(" + head
  {
  }

  lemma Assemble(out: string, head: string, rest: string, a: string, m: string, z: string)
    requires out == "(" + head && head == a + m + rest && rest == z + ")"
    ensures out == Bracketed(a, m, z)
  {
  }

  lemma ValueIsNotKey(v: string, k: string)
    requires IsTagValue(v) && IsTagKey(k)
    ensures v != k
  {
    var i :| 0 <= i < |v| && IsLowerLetter(v[i]);
    if |v| == |k| { assert v[i] != k[i]; }
  }

  /** A part that is a raw tag or a dictionary value is a valid head and tail part. */
  lemma PartsStayValid(x: string, k: string)
    requires IsRawTag(x) || IsTagValue(x)
    requires IsTagKey(k)
    ensures IsHeadPart(x) && IsTailPart(x, k)
  {
    if !IsRawTag(x) {
      forall i | 1 <= i <= |x| && x[i - 1] == ' ' ensures x[i..] != k {
        assert LowerAfterSpace(x, i - 1);
        assert x[i..][0] == x[i];
      }
    }
  }

  lemma {:induction false} TranslateBracketed(a: string, m: string, z: string, d: seq<(string, string)>)
    requires WellFormedDict(d)
    requires IsRawTag(a) && IsRawTag(z) && IsMiddlePart(m)
    ensures Translate(Bracketed(a, m, z), d) == Bracketed(Lookup(d, a), m, Lookup(d, z))
    ensures HasKey(d, a) ==> IsTagValue(Lookup(d, a))
    ensures !HasKey(d, a) ==> Lookup(d, a) == a
    ensures HasKey(d, z) ==> IsTagValue(Lookup(d, z))
    ensures !HasKey(d, z) ==> Lookup(d, z) == z
    decreases |d|
  {
    if d == [] {
    } else {
      var init := d[..|d| - 1];
      var e := d[|d| - 1];
      assert d == init + [e];
      assert forall x :: x in init ==> x in d;
      TranslateBracketed(a, m, z, init);
      var a0, z0 := Lookup(init, a), Lookup(init, z);
      LookupSnoc(init, e, a);
      LookupSnoc(init, e, z);
      assert e in d;
      PartsStayValid(a0, e.0);
      PartsStayValid(z0, e.0);
      SubTagBracketed(a0, m, z0, e.0, e.1, SubTag(Bracketed(a0, m, z0), e.0, e.1));
      if HasKey(init, a) { ValueIsNotKey(a0, e.0); }
      if HasKey(init, z) { ValueIsNotKey(z0, e.0); }
      if HasKey(d, a) { LookupFound(d, a); }
      if HasKey(d, z) { LookupFound(d, z); }
    }
  }

  /** create_pretty_pos_pairs on a two-tag pair "A B": each tag is replaced by its dictionary
      value, and a tag the dictionary lacks passes through unchanged. This holds for every
      iteration order of a well-formed dictionary. */
  lemma TwoTagPair(a: string, b: string, d: seq<(string, string)>)
    requires WellFormedDict(d) && IsRawTag(a) && IsRawTag(b)
    ensures PrettyPosPairWith(a + " " + b, d) == "POS Pair: (" + Lookup(d, a) + ", " + Lookup(d, b) + ")"
  {
    var c := CommaSeparated(a + " " + b);
    CommaTwo(a, b);
    CommaIsMiddle();
    BracketedTwo(a, b, c);
    TranslateBracketed(a, ", ", b, d);
    LabelTwo(Translate("(" + c + ")", d), Lookup(d, a), Lookup(d, b));
  }

  lemma CommaIsMiddle()
    ensures IsMiddlePart(", ")
  {
  }

  lemma BracketedTwo(a: string, b: string, c: string)
    requires c == a + ", " + b
    ensures "(" + c + ")" == Bracketed(a, ", ", b)
  {
  }

  lemma LabelTwo(inner: string, a: string, b: string)
    requires inner == Bracketed(a, ", ", b)
    ensures "POS Pair: " + inner == "POS Pair: (" + a + ", " + b + ")"
  {
    PosPairLabel(a, ", ", b);
  }

  /** The label put in front of a bracketed pair. */
  lemma PosPairLabel(a: string, m: string, z: string)
    ensures "POS Pair: " + Bracketed(a, m, z) == "POS Pair: (" + a + m + z + ")"
  {
    assert "POS Pair: (" == "POS Pair: " + "(";
  }

  lemma CommaTwo(a: string, b: string)
    requires IsRawTag(a) && IsRawTag(b)
    ensures CommaSeparated(a + " " + b) == a + ", " + b
  {
    assert a + " " + b == a + (" " + b);
    CommaSeparatedConcat(a, " " + b);
    CommaSeparatedConcat(" ", b);
    CommaSpace();
    CommaSeparatedRaw(a);
    CommaSeparatedRaw(b);
    assert CommaSeparated(" " + b) == ", " + b;
    assert a + (", " + b) == a + ", " + b;
  }

  lemma CommaSpace()
    ensures CommaSeparated(" ") == ", "
  {
    assert " "[1..] == [];
  }

  /** With three tags "A B C", the middle tag is never translated: it sits between a space and a
      comma, a context neither alternative of the pattern accepts. */
  lemma ThreeTagPair(a: string, b: string, c: string, d: seq<(string, string)>)
    requires WellFormedDict(d) && IsRawTag(a) && IsRawTag(b) && IsRawTag(c)
    ensures PrettyPosPairWith(a + " " + b + " " + c, d)
         == "POS Pair: (" + Lookup(d, a) + ", " + b + ", " + Lookup(d, c) + ")"
  {
    var x := CommaSeparated(a + " " + b + " " + c);
    CommaThree(a, b, c);
    MiddleTag(b);
    BracketedThree(a, b, c, x);
    TranslateBracketed(a, ", " + b + ", ", c, d);
    LabelThree(Translate("(" + x + ")", d), Lookup(d, a), b, Lookup(d, c));
  }

  lemma BracketedThree(a: string, b: string, c: string, x: string)
    requires x == a + ", " + b + ", " + c
    ensures "(" + x + ")" == Bracketed(a, ", " + b + ", ", c)
  {
  }

  lemma LabelThree(inner: string, a: string, b: string, c: string)
    requires inner == Bracketed(a, ", " + b + ", ", c)
    ensures "POS Pair: " + inner == "POS Pair: (" + a + ", " + b + ", " + c + ")"
  {
    PosPairLabel(a, ", " + b + ", ", c);
  }

  /** A raw middle tag with its separators is a valid separator part. */
  lemma MiddleTag(b: string)
    requires IsRawTag(b)
    ensures IsMiddlePart(", " + b + ", ")
  {
    var m := ", " + b + ", ";
    forall i | 0 <= i < |m| ensures m[i] != '(' && m[i] != ')' {
      if 2 <= i < 2 + |b| { assert m[i] == b[i - 2]; }
    }
  }

  lemma CommaThree(a: string, b: string, c: string)
    requires IsRawTag(a) && IsRawTag(b) && IsRawTag(c)
    ensures CommaSeparated(a + " " + b + " " + c) == a + ", " + b + ", " + c
  {
    CommaTwo(a, b);
    CommaSeparatedConcat(a + " " + b, " " + c);
    CommaSeparatedConcat(" ", c);
    CommaSeparatedRaw(c);
    assert a + " " + b + " " + c == (a + " " + b) + (" " + c);
  }

  lemma {:induction false} CommaSeparatedConcat(x: string, y: string)
    ensures CommaSeparated(x + y) == CommaSeparated(x) + CommaSeparated(y)
  {
    if x != [] {
      var h := if x[0] == ' ' then ", " else [x[0]];
      assert (x + y)[0] == x[0];
      assert (x + y)[1..] == x[1..] + y;
      CommaSeparatedConcat(x[1..], y);
      assert CommaSeparated(x + y) == h + CommaSeparated(x[1..] + y);
      assert CommaSeparated(x) == h + CommaSeparated(x[1..]);
    } else {
      assert x + y == y;
    }
  }

  lemma CommaSeparatedRaw(x: string)
    requires IsRawTag(x)
    ensures CommaSeparated(x) == x
  {
    if x != [] {
      CommaSeparatedRaw(x[1..]);
    }
  }

  // ---------------------------------------------------------------------------------------
  // Classification of pretty POS pairs

  predicate NoColon(s: string) { forall i :: 0 <= i < |s| ==> s[i] != ':' }

  lemma {:induction false} SubTagNoColon(s: string, key: string, val: string, i: nat)
    requires |key| > 0 && NoColon(s) && NoColon(val)
    ensures NoColon(SubTagFrom(s, key, val, i))
    decreases |s| - i
  {
    if i < |s| {
      if TagAt(s, key, i) {
        SubTagNoColon(s, key, val, i + |key|);
      } else {
        SubTagNoColon(s, key, val, i + 1);
      }
    }
  }

  lemma {:induction false} TranslateNoColon(s: string, d: seq<(string, string)>)
    requires WellFormedDict(d) && NoColon(s)
    ensures NoColon(Translate(s, d))
    decreases |d|
  {
    if d != [] {
      var e := d[|d| - 1];
      assert forall x :: x in d[..|d| - 1] ==> x in d;
      TranslateNoColon(s, d[..|d| - 1]);
      assert e in d;
      SubTagNoColon(Translate(s, d[..|d| - 1]), e.0, e.1, 0);
    }
  }

  lemma CommaSeparatedNoColon(x: string)
    requires NoColon(x)
    ensures NoColon(CommaSeparated(x))
  {
    if x != [] {
      CommaSeparatedNoColon(x[1..]);
    }
  }

  /** Every pretty POS pair built from a pair without a colon classifies as a POS feature. */
  lemma PrettyPosPairIsPos(pair: string, d: seq<(string, string)>)
    requires WellFormedDict(d) && NoColon(pair)
    ensures DetermineFeatureType(PrettyPosPairWith(pair, d)) == Pos
  {
    CommaSeparatedNoColon(pair);
    var inner := Translate("(" + CommaSeparated(pair) + ")", d);
    TranslateNoColon("(" + CommaSeparated(pair) + ")", d);
    var r := "POS Pair: " + inner;
    assert OccursAt(r, "POS Pair:", 0);
    forall i | 0 <= i <= |r| - 5 ensures !OccursAt(r, "Word:", i) {
      if i + 4 >= 10 {
        assert r[i + 4] == inner[i + 4 - 10];
        assert r[i..i + 5][4] == r[i + 4];
      } else if i + 4 != 8 {
        assert r[i + 4] != ':';
        assert r[i..i + 5][4] == r[i + 4];
      } else {
        assert r[i..i + 5][0] == r[4] == 'P';
      }
    }
  }
}
