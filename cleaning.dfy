/** The text-cleaning helpers of make_data.py: the substitution of a few Unicode punctuation and
    space characters by ASCII text, and the whitespace normalisation `" ".join(text.split())`. */
module Cleaning {
  import opened Text

  // ---------------------------------------------------------------------------------------
  // translate_from_unicode

  /** The code points the unicode vocabulary replaces. */
  predicate Mapped(c: char)
  {
    c == '\U{2013}' || c == '\U{2014}' || c == '\U{2015}' ||
    c == '\U{2018}' || c == '\U{2019}' || c == '\U{201b}' || c == '\U{201c}' ||
    c == '\U{201d}' || c == '\U{2032}' || c == '\U{201a}' || c == '\U{2044}' ||
    c == '\U{2026}' || c == '\U{00a0}' || c == '\t' || c == '\r' || c == '\U{00f1}'
  }

  /** What one character becomes: its replacement when it is mapped, itself otherwise. */
  function TranslateChar(c: char): string
  {
    if c == '\U{2013}' then "-"
    else if c == '\U{2014}' || c == '\U{2015}' then "--"
    else if c == '\U{2018}' || c == '\U{2019}' || c == '\U{201b}' || c == '\U{201c}' ||
            c == '\U{201d}' || c == '\U{2032}' then "'"
    else if c == '\U{201a}' then ","
    else if c == '\U{2044}' then "/"
    else if c == '\U{2026}' then "..."
    else if c == '\U{00a0}' || c == '\t' || c == '\r' then " "
    else if c == '\U{00f1}' then "n"
    else [c]
  }

  /** No character is mapped to text that holds a mapped character. */
  lemma TranslateCharClean(c: char)
    ensures forall i :: 0 <= i < |TranslateChar(c)| ==> !Mapped(TranslateChar(c)[i])
    ensures !Mapped(c) ==> TranslateChar(c) == [c]
  {
  }

  /** The translation, character by character. */
  function Translated(s: string): string
  {
    if s == [] then [] else TranslateChar(s[0]) + Translated(s[1..])
  }

  /** No mapped character survives the translation. */
  lemma {:induction false} TranslatedClean(s: string)
    ensures forall i :: 0 <= i < |Translated(s)| ==> !Mapped(Translated(s)[i])
  {
    if s != [] {
      TranslatedClean(s[1..]);
      TranslateCharClean(s[0]);
      var h, t := TranslateChar(s[0]), Translated(s[1..]);
      forall i | 0 <= i < |h + t| ensures !Mapped((h + t)[i]) {
        if i >= |h| { assert (h + t)[i] == t[i - |h|]; }
      }
    }
  }

  /** Text without mapped characters is left as it is. */
  lemma {:induction false} TranslatedPlain(s: string)
    requires forall i :: 0 <= i < |s| ==> !Mapped(s[i])
    ensures Translated(s) == s
  {
    if s != [] {
      TranslatedPlain(s[1..]);
      TranslateCharClean(s[0]);
      assert s == [s[0]] + s[1..];
    }
  }

  /** A character the vocabulary does not map survives the translation. */
  lemma {:induction false} TranslatedKeeps(s: string, c: char)
    requires c in s && !Mapped(c)
    ensures c in Translated(s)
  {
    TranslateCharClean(s[0]);
    if s[0] == c {
      assert Translated(s)[0] == c;
    } else {
      assert c in s[1..];
      TranslatedKeeps(s[1..], c);
      var t := Translated(s[1..]);
      var j :| 0 <= j < |t| && t[j] == c;
      assert Translated(s)[|TranslateChar(s[0])| + j] == c;
    }
  }

  /** Translating twice is translating once. */
  lemma TranslatedIdempotent(s: string)
    ensures Translated(Translated(s)) == Translated(s)
  {
    TranslatedClean(s);
    TranslatedPlain(Translated(s));
  }

  /** An entry of the vocabulary dictionary: a replacement and the code points it replaces. */
  type Entry = (string, seq<char>)

  /** The dictionary as the source writes it; Python iterates it in an order of its own. */
  const SourceVocab: seq<Entry> := [
    ("-", ['\U{2013}']),
    ("--", ['\U{2014}', '\U{2015}']),
    ("'", ['\U{2018}', '\U{2019}', '\U{201b}', '\U{201c}', '\U{201d}', '\U{2032}']),
    (",", ['\U{201a}']),
    ("/", ['\U{2044}']),
    ("...", ['\U{2026}']),
    (" ", ['\U{00a0}', '\t', '\r']),
    ("n", ['\U{00f1}'])
  ]

  /** `vocab` lists the translation in some order: every code it lists is mapped to that
      entry's replacement, and every mapped character is listed. */
  predicate VocabFor(vocab: seq<Entry>)
  {
    (forall e, k :: e in vocab && k in e.1 ==> Mapped(k) && TranslateChar(k) == e.0) &&
    (forall c :: Mapped(c) ==> exists e :: e in vocab && c in e.1)
  }

  lemma SourceVocabFor()
    ensures VocabFor(SourceVocab)
  {
    var v := SourceVocab;
    SourceEntries();
    forall c | Mapped(c) ensures exists i :: 0 <= i < |v| && c in v[i].1 {
      SourceListed(c);
    }
    VocabByIndex(v);
  }

  /** Every listed code is mapped to its entry's replacement. */
  lemma SourceEntries()
    ensures forall i, k :: 0 <= i < |SourceVocab| && k in SourceVocab[i].1 ==>
      Mapped(k) && TranslateChar(k) == SourceVocab[i].0
  {
  }

  /** Every mapped character is listed, with the index of its entry. */
  lemma SourceListed(c: char)
    requires Mapped(c)
    ensures exists i :: 0 <= i < |SourceVocab| && c in SourceVocab[i].1
  {
    var v := SourceVocab;
    if c == '\U{2013}' { assert c in v[0].1; }
    else if c == '\U{2014}' || c == '\U{2015}' { assert c in v[1].1; }
    else if c == '\U{2018}' || c == '\U{2019}' || c == '\U{201b}' || c == '\U{201c}' ||
            c == '\U{201d}' || c == '\U{2032}' { assert c in v[2].1; }
    else if c == '\U{201a}' { assert c in v[3].1; }
    else if c == '\U{2044}' { assert c in v[4].1; }
    else if c == '\U{2026}' { assert c in v[5].1; }
    else if c == '\U{00a0}' || c == '\t' || c == '\r' { assert c in v[6].1; }
    else { assert c in v[7].1; }
  }

  lemma VocabByIndex(v: seq<Entry>)
    requires forall i, k :: 0 <= i < |v| && k in v[i].1 ==> Mapped(k) && TranslateChar(k) == v[i].0
    requires forall c :: Mapped(c) ==> exists i :: 0 <= i < |v| && c in v[i].1
    ensures VocabFor(v)
  {
    forall c | Mapped(c) ensures exists e :: e in v && c in e.1 {
      var i :| 0 <= i < |v| && c in v[i].1;
      assert v[i] in v;
    }
  }

  /** The (code, replacement) pairs of an entry, in its order. */
  function PairsOf(e: Entry): seq<(char, string)>
  {
    seq(|e.1|, k requires 0 <= k < |e.1| => (e.1[k], e.0))
  }

  /** The pairs of all entries, in iteration order. */
  function Flat(v: seq<Entry>): seq<(char, string)>
  {
    if v == [] then [] else Flat(v[..|v| - 1]) + PairsOf(v[|v| - 1])
  }

  /** The text a character has become after the replacements `ps`, in order: the first pair
      for it, or the character itself. */
  function Lookup(ps: seq<(char, string)>, c: char): string
  {
    if ps == [] then [c] else if ps[0].0 == c then ps[0].1 else Lookup(ps[1..], c)
  }

  predicate HasCode(ps: seq<(char, string)>, c: char)
  {
    exists p :: p in ps && p.0 == c
  }

  lemma {:induction false} LookupSnoc(ps: seq<(char, string)>, c: char, r: string, x: char)
    ensures Lookup(ps + [(c, r)], x) == if HasCode(ps, x) then Lookup(ps, x) else if x == c then r else [x]
  {
    if ps != [] {
      assert (ps + [(c, r)])[1..] == ps[1..] + [(c, r)];
      LookupSnoc(ps[1..], c, r, x);
      if ps[0].0 != x && HasCode(ps, x) {
        var p :| p in ps && p.0 == x;
        assert p in ps[1..];
      }
    }
  }

  lemma {:induction false} LookupIsPair(ps: seq<(char, string)>, c: char)
    requires HasCode(ps, c)
    ensures (c, Lookup(ps, c)) in ps
  {
    if ps[0].0 != c {
      var p :| p in ps && p.0 == c;
      assert p in ps[1..];
      LookupIsPair(ps[1..], c);
    }
  }

  lemma {:induction false} LookupMissing(ps: seq<(char, string)>, c: char)
    requires !HasCode(ps, c)
    ensures Lookup(ps, c) == [c]
  {
    if ps != [] {
      assert ps[0] in ps;
      LookupMissing(ps[1..], c);
    }
  }

  /** The text the replacements `ps` have made of `s`. */
  function MapWith(s: string, ps: seq<(char, string)>): string
  {
    if s == [] then [] else Lookup(ps, s[0]) + MapWith(s[1..], ps)
  }

  /** `s.replace(c, r)` for a single character `c`. */
  function Replace(s: string, c: char, r: string): string
  {
    if s == [] then [] else (if s[0] == c then r else [s[0]]) + Replace(s[1..], c, r)
  }

  lemma {:induction false} ReplaceConcat(a: string, b: string, c: char, r: string)
    ensures Replace(a + b, c, r) == Replace(a, c, r) + Replace(b, c, r)
  {
    if a == [] {
      assert a + b == b;
    } else {
      assert (a + b)[1..] == a[1..] + b;
      ReplaceConcat(a[1..], b, c, r);
    }
  }

  lemma {:induction false} ReplaceAbsent(a: string, c: char, r: string)
    requires forall i :: 0 <= i < |a| ==> a[i] != c
    ensures Replace(a, c, r) == a
  {
    if a != [] {
      ReplaceAbsent(a[1..], c, r);
      assert a == [a[0]] + a[1..];
    }
  }

  /** No replacement text holds a mapped character. */
  predicate CleanReps(ps: seq<(char, string)>)
  {
    forall p, i :: p in ps && 0 <= i < |p.1| ==> !Mapped(p.1[i])
  }

  /** One more replacement of a mapped character, after replacements whose texts hold none,
      extends the character-by-character picture. */
  lemma {:induction false} ReplaceStep(s: string, ps: seq<(char, string)>, c: char, r: string)
    requires CleanReps(ps) && Mapped(c)
    ensures Replace(MapWith(s, ps), c, r) == MapWith(s, ps + [(c, r)])
  {
    if s != [] {
      var x := s[0];
      ReplaceConcat(Lookup(ps, x), MapWith(s[1..], ps), c, r);
      ReplaceStep(s[1..], ps, c, r);
      LookupSnoc(ps, c, r, x);
      if HasCode(ps, x) {
        LookupIsPair(ps, x);
        ReplaceAbsent(Lookup(ps, x), c, r);
      } else {
        LookupMissing(ps, x);
      }
    }
  }

  lemma {:induction false} FlatMembers(v: seq<Entry>, p: (char, string))
    ensures p in Flat(v) <==> exists e :: e in v && p.0 in e.1 && p.1 == e.0
  {
    if v != [] {
      var init, e := v[..|v| - 1], v[|v| - 1];
      FlatMembers(init, p);
      assert v == init + [e];
      if p in PairsOf(e) {
        var k :| 0 <= k < |e.1| && PairsOf(e)[k] == p;
      }
      if p.0 in e.1 && p.1 == e.0 {
        var k :| 0 <= k < |e.1| && e.1[k] == p.0;
        assert PairsOf(e)[k] == p;
      }
    }
  }

  /** After all entries, every character has become its translation. */
  lemma LookupFlat(v: seq<Entry>, c: char)
    requires VocabFor(v)
    ensures Lookup(Flat(v), c) == TranslateChar(c)
  {
    if HasCode(Flat(v), c) {
      LookupIsPair(Flat(v), c);
      FlatMembers(v, (c, Lookup(Flat(v), c)));
    } else if Mapped(c) {
      var e :| e in v && c in e.1;
      FlatMembers(v, (c, e.0));
      assert false;
    } else {
      LookupMissing(Flat(v), c);
    }
  }

  lemma {:induction false} MapWithFlat(s: string, v: seq<Entry>)
    requires VocabFor(v)
    ensures MapWith(s, Flat(v)) == Translated(s)
  {
    if s != [] {
      LookupFlat(v, s[0]);
      MapWithFlat(s[1..], v);
    }
  }

  lemma FlatClean(v: seq<Entry>, n: nat)
    requires VocabFor(v) && n <= |v|
    ensures CleanReps(Flat(v[..n]))
  {
    forall p, i | p in Flat(v[..n]) && 0 <= i < |p.1| ensures !Mapped(p.1[i]) {
      FlatMembers(v[..n], p);
      var e :| e in v[..n] && p.0 in e.1 && p.1 == e.0;
      assert e in v;
      TranslateCharClean(p.0);
    }
  }

  lemma FlatPrefix(v: seq<Entry>, n: nat)
    requires n < |v|
    ensures Flat(v[..n + 1]) == Flat(v[..n]) + PairsOf(v[n])
  {
    assert v[..n + 1][..n] == v[..n];
  }

  lemma PairsOfPrefix(ch: string, codes: seq<char>, k: nat)
    requires k < |codes|
    ensures PairsOf((ch, codes[..k + 1])) == PairsOf((ch, codes[..k])) + [(codes[k], ch)]
  {
  }

  /** translate_from_unicode: for each entry of the vocabulary, in whatever order it is
      iterated, each of its codes is replaced in turn. The result is the character-by-character
      translation, so it does not depend on the iteration order, and holds no mapped
      character. */
  method TranslateFromUnicode(text: string, vocab: seq<Entry>) returns (out: string)
    requires VocabFor(vocab)
    ensures out == Translated(text)
    ensures forall i :: 0 <= i < |out| ==> !Mapped(out[i])
  {
    out := text;
    assert vocab[..0] == [];
    MapWithEmpty(text);
    for e := 0 to |vocab|
      invariant out == MapWith(text, Flat(vocab[..e]))
    {
      FlatClean(vocab, e);
      assert vocab[e] in vocab;
      out := ReplaceCodes(out, text, Flat(vocab[..e]), vocab[e]);
      FlatPrefix(vocab, e);
    }
    assert vocab[..|vocab|] == vocab;
    MapWithFlat(text, vocab);
    TranslatedClean(text);
  }

  /** The inner loop: each code of one entry is replaced by the entry's replacement. */
  method ReplaceCodes(current: string, ghost text: string, ghost done: seq<(char, string)>, entry: Entry)
    returns (out: string)
    requires current == MapWith(text, done) && CleanReps(done)
    requires forall k :: k in entry.1 ==> Mapped(k) && TranslateChar(k) == entry.0
    ensures out == MapWith(text, done + PairsOf(entry))
  {
    var (ch, codes) := entry;
    if codes != [] {
      TranslateCharClean(codes[0]);
    }
    out := current;
    assert PairsOf((ch, codes[..0])) == [];
    assert done + PairsOf((ch, codes[..0])) == done;
    for k := 0 to |codes|
      invariant out == MapWith(text, done + PairsOf((ch, codes[..k])))
    {
      SnocClean(done, ch, codes, k);
      ReplaceStep(text, done + PairsOf((ch, codes[..k])), codes[k], ch);
      PairsOfPrefix(ch, codes, k);
      assert done + PairsOf((ch, codes[..k])) + [(codes[k], ch)] == done + PairsOf((ch, codes[..k + 1]));
      out := Replace(out, codes[k], ch);
    }
    assert codes[..|codes|] == codes;
  }

  lemma SnocClean(done: seq<(char, string)>, ch: string, codes: seq<char>, k: nat)
    requires CleanReps(done) && k <= |codes|
    requires forall i :: 0 <= i < |ch| ==> !Mapped(ch[i])
    ensures CleanReps(done + PairsOf((ch, codes[..k])))
  {
  }

  lemma {:induction false} MapWithEmpty(s: string)
    ensures MapWith(s, []) == s
  {
    if s != [] {
      MapWithEmpty(s[1..]);
      assert s == [s[0]] + s[1..];
    }
  }

  // ---------------------------------------------------------------------------------------
  // remove_extra_spaces

  /** `" ".join(text.split())`. */
  function RemoveExtraSpaces(s: string): string
  {
    Join(Words(s), " ")
  }

  lemma {:induction false} WordLengthOf(w: string, t: string)
    requires IsWord(w) && (t == [] || IsSpace(t[0]))
    ensures WordLength(w + t) == |w|
  {
    if |w| > 1 {
      assert (w + t)[1..] == w[1..] + t;
      WordLengthOf(w[1..], t);
    } else {
      assert (w + t)[1..] == t;
    }
  }

  /** The words of a word followed by a space and more text. */
  lemma WordsCons(w: string, rest: string)
    requires IsWord(w)
    ensures Words(w + " " + rest) == [w] + Words(rest)
  {
    var s := w + " " + rest;
    WordLengthOf(w, " " + rest);
    assert s == w + (" " + rest);
    assert s[..|w|] == w;
    assert s[|w|..] == " " + rest;
    assert (" " + rest)[1..] == rest;
  }

  lemma WordsOfWord(w: string)
    requires IsWord(w)
    ensures Words(w) == [w]
  {
    WordLengthOf(w, []);
    assert w + [] == w;
  }

  /** Splitting words joined by single spaces gives back the words. */
  lemma {:induction false} WordsJoin(ws: seq<string>)
    requires forall w :: w in ws ==> IsWord(w)
    ensures Words(Join(ws, " ")) == ws
  {
    if |ws| == 1 {
      WordsOfWord(ws[0]);
    } else if |ws| > 1 {
      assert ws[0] in ws;
      assert forall w :: w in ws[1..] ==> w in ws;
      WordsJoin(ws[1..]);
      WordsCons(ws[0], Join(ws[1..], " "));
      assert ws == [ws[0]] + ws[1..];
    }
  }

  /** Normalising keeps the words, in order. */
  lemma RemoveExtraSpacesWords(s: string)
    ensures Words(RemoveExtraSpaces(s)) == Words(s)
  {
    WordsJoin(Words(s));
  }

  /** Normalising is idempotent. */
  lemma RemoveExtraSpacesIdempotent(s: string)
    ensures RemoveExtraSpaces(RemoveExtraSpaces(s)) == RemoveExtraSpaces(s)
  {
    RemoveExtraSpacesWords(s);
  }

  /** Every non-whitespace character of the text lies in one of its words. */
  lemma {:induction false} WordsKeep(s: string, c: char)
    requires c in s && !IsSpace(c)
    ensures exists w :: w in Words(s) && c in w
    decreases |s|
  {
    if IsSpace(s[0]) {
      assert c in s[1..];
      WordsKeep(s[1..], c);
    } else {
      var n := WordLength(s);
      assert s == s[..n] + s[n..];
      assert Words(s) == [s[..n]] + Words(s[n..]);
      if c !in s[..n] {
        assert c in s[n..];
        WordsKeep(s[n..], c);
        var w :| w in Words(s[n..]) && c in w;
        assert w in Words(s);
      }
    }
  }

  /** A character of one part is a character of the joined text. */
  lemma {:induction false} JoinKeeps(ws: seq<string>, sep: string, w: string, c: char)
    requires w in ws && c in w
    ensures c in Join(ws, sep)
    decreases |ws|
  {
    if |ws| > 1 {
      var rest := Join(ws[1..], sep);
      assert Join(ws, sep) == ws[0] + (sep + rest);
      if ws[0] != w {
        JoinKeeps(ws[1..], sep, w, c);
        var j :| 0 <= j < |rest| && rest[j] == c;
        assert Join(ws, sep)[|ws[0]| + |sep| + j] == c;
      } else {
        var j :| 0 <= j < |w| && w[j] == c;
        assert Join(ws, sep)[j] == c;
      }
    }
  }

  /** Normalisation only removes whitespace: every other character is kept. */
  lemma RemoveExtraSpacesKeeps(s: string, c: char)
    requires c in s && !IsSpace(c)
    ensures c in RemoveExtraSpaces(s)
  {
    WordsKeep(s, c);
    var w :| w in Words(s) && c in w;
    JoinKeeps(Words(s), " ", w, c);
  }

  /** Normalised text: the only whitespace is single spaces between non-whitespace. */
  predicate Normalised(r: string)
  {
    (r == [] || (!IsSpace(r[0]) && !IsSpace(r[|r| - 1]))) &&
    (forall i :: 0 <= i < |r| && IsSpace(r[i]) ==> r[i] == ' ' && 0 < i < |r| - 1 && !IsSpace(r[i + 1]))
  }

  lemma NormalisedCons(w: string, rest: string)
    requires IsWord(w) && rest != [] && Normalised(rest)
    ensures Normalised(w + " " + rest)
  {
    var r := w + " " + rest;
    assert forall i :: 0 <= i < |w| ==> r[i] == w[i];
    forall i | |w| <= i < |r| && IsSpace(r[i]) ensures r[i] == ' ' && 0 < i < |r| - 1 && !IsSpace(r[i + 1]) {
      if i > |w| {
        assert r[i] == rest[i - |w| - 1];
        assert r[i + 1] == rest[i - |w|];
      } else {
        assert r[i + 1] == rest[0];
      }
    }
    assert r[0] == w[0] && r[|r| - 1] == rest[|rest| - 1];
  }

  /** Words joined by single spaces are normalised. */
  lemma {:induction false} JoinNormalised(ws: seq<string>)
    requires forall w :: w in ws ==> IsWord(w)
    ensures Normalised(Join(ws, " "))
    ensures ws != [] ==> Join(ws, " ") != []
  {
    if |ws| == 1 {
      assert ws[0] in ws;
    } else if |ws| > 1 {
      assert ws[0] in ws;
      assert forall w :: w in ws[1..] ==> w in ws;
      JoinNormalised(ws[1..]);
      NormalisedCons(ws[0], Join(ws[1..], " "));
    }
  }

  /** The result has no leading or trailing whitespace, no two whitespace characters in a row,
      and only spaces as whitespace. */
  lemma RemoveExtraSpacesNormalised(s: string)
    ensures Normalised(RemoveExtraSpaces(s))
    ensures RemoveExtraSpaces(s) == [] <==> Words(s) == []
  {
    JoinNormalised(Words(s));
  }
}
