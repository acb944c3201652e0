/** The pure parts of select_model.py: choosing the models whose mean cross-validation score
    lies within one standard error of the best, and the text preprocessing of the speech and
    part-of-speech columns. The sentence tokenizer is outside the model: its output is a
    parameter. */
module ModelSelection {
  import opened Text

  // ---------------------------------------------------------------------------------------
  // select_models

  /** One entry of the search results: the fitted model with its parameters (named here by
      their position in the search), the mean score over the folds and the standard error of
      that mean. */
  datatype SearchResult = SearchResult(model: nat, score: real, sem: real)

  /** `b` keeps the elements of `a` it has, in their order. */
  predicate Sublist<T(==)>(a: seq<T>, b: seq<T>)
    decreases |b|
  {
    if a == [] then true
    else if b == [] then false
    else (a[0] == b[0] && Sublist(a[1..], b[1..])) || Sublist(a, b[1..])
  }

  /** `max([result[2] for result in results])`. */
  function BestScore(results: seq<SearchResult>): (best: real)
    requires |results| > 0
    ensures forall r :: r in results ==> r.score <= best
    ensures exists r :: r in results && r.score == best
  {
    if |results| == 1 then results[0].score
    else
      var rest := BestScore(results[1..]);
      assert forall r :: r in results[1..] ==> r in results;
      if results[0].score >= rest then results[0].score else rest
  }

  /** The results whose score is `score`. */
  function AtScore(results: seq<SearchResult>, score: real): (tied: seq<SearchResult>)
    ensures forall r :: r in tied <==> r in results && r.score == score
  {
    if results == [] then []
    else (if results[0].score == score then [results[0]] else []) + AtScore(results[1..], score)
  }

  /** `min([result[3] for result in results])`. */
  function LeastSem(results: seq<SearchResult>): (se: real)
    requires |results| > 0
    ensures forall r :: r in results ==> se <= r.sem
    ensures exists r :: r in results && r.sem == se
  {
    if |results| == 1 then results[0].sem
    else
      var rest := LeastSem(results[1..]);
      assert forall r :: r in results[1..] ==> r in results;
      if results[0].sem <= rest then results[0].sem else rest
  }

  /** `[result for result in results if result[2] >= threshold]`. */
  function AtLeast(results: seq<SearchResult>, threshold: real): seq<SearchResult>
  {
    if results == [] then []
    else (if results[0].score >= threshold then [results[0]] else []) + AtLeast(results[1..], threshold)
  }

  /** The standard error used as the margin: the least one among the results at the best score. */
  function Margin(results: seq<SearchResult>): real
    requires |results| > 0
  {
    var best := BestScore(results);
    var r :| r in results && r.score == best;
    assert r in AtScore(results, best);
    LeastSem(AtScore(results, best))
  }

  /** The selection; `None` where `max` of the empty score list raises. */
  function SelectModels(results: seq<SearchResult>): Option<seq<SearchResult>>
  {
    if results == [] then None
    else Some(AtLeast(results, BestScore(results) - Margin(results)))
  }

  /** The filter keeps exactly the results at or above the threshold, in order. */
  lemma {:induction false} AtLeastFacts(results: seq<SearchResult>, threshold: real)
    ensures forall r :: r in AtLeast(results, threshold) <==> r in results && r.score >= threshold
    ensures Sublist(AtLeast(results, threshold), results)
  {
    if results != [] {
      AtLeastFacts(results[1..], threshold);
      var kept := AtLeast(results[1..], threshold);
      if results[0].score >= threshold {
        assert AtLeast(results, threshold) == [results[0]] + kept;
        assert ([results[0]] + kept)[1..] == kept;
      } else {
        assert AtLeast(results, threshold) == kept;
        SublistCons(kept, results[1..], results[0]);
        assert [results[0]] + results[1..] == results;
      }
    }
  }

  lemma SublistCons<T>(a: seq<T>, b: seq<T>, x: T)
    requires Sublist(a, b)
    ensures Sublist(a, [x] + b)
  {
    assert ([x] + b)[1..] == b;
  }

  /** The margin is the standard error of one of the best results, and no best result has a
      smaller one. */
  lemma MarginFacts(results: seq<SearchResult>)
    requires |results| > 0
    ensures exists r :: r in results && r.score == BestScore(results) && r.sem == Margin(results)
    ensures forall r :: r in results && r.score == BestScore(results) ==> Margin(results) <= r.sem
  {
    var tied := AtScore(results, BestScore(results));
    var r :| r in results && r.score == BestScore(results);
    assert r in tied;
  }

  /** Empty input fails; otherwise the selection is the results scoring at least
      `best - SE`, kept in their order, and every result at the best score is among them
      when standard errors are not negative. */
  lemma SelectModelsFacts(results: seq<SearchResult>)
    ensures SelectModels(results).None? <==> results == []
    ensures results != [] ==>
      var kept := SelectModels(results).value;
      var threshold := BestScore(results) - Margin(results);
      Sublist(kept, results) &&
      forall r :: r in kept <==> r in results && r.score >= threshold
    ensures results != [] && (forall r :: r in results ==> 0.0 <= r.sem) ==>
      (forall r :: r in results && r.score == BestScore(results) ==> r in SelectModels(results).value)
  {
    if results != [] {
      var threshold := BestScore(results) - Margin(results);
      AtLeastFacts(results, threshold);
      MarginFacts(results);
    }
  }

  /** The selection is never empty when standard errors are not negative. */
  lemma SelectModelsNonempty(results: seq<SearchResult>)
    requires results != [] && forall r :: r in results ==> 0.0 <= r.sem
    ensures |SelectModels(results).value| > 0
  {
    SelectModelsFacts(results);
    var r :| r in results && r.score == BestScore(results);
  }

  // ---------------------------------------------------------------------------------------
  // process_speech

  /** `sentences[1:-1]`. */
  function Interior<T>(sentences: seq<T>): (r: seq<T>)
    ensures |sentences| <= 2 ==> r == []
    ensures |sentences| > 2 ==> |r| == |sentences| - 2
    ensures forall i :: 0 <= i < |r| ==> r[i] == sentences[i + 1]
  {
    if |sentences| <= 2 then [] else sentences[1..|sentences| - 1]
  }

  /** `re.sub("[0-9]", "", s)`. */
  function StripDigits(s: string): string
  {
    if s == [] then [] else (if IsDigit(s[0]) then [] else [s[0]]) + StripDigits(s[1..])
  }

  /** Only the digits go: the result has none, keeps every other character in order, and is
      as much shorter as there were digits. */
  lemma {:induction false} StripDigitsFacts(s: string)
    ensures !HasDigit(StripDigits(s))
    ensures Sublist(StripDigits(s), s)
    ensures forall c :: c in s && !IsDigit(c) ==> c in StripDigits(s)
    ensures |StripDigits(s)| == |s| - |DigitsOf(s)|
  {
    if s != [] {
      StripDigitsFacts(s[1..]);
      var t := StripDigits(s[1..]);
      assert s == [s[0]] + s[1..];
      assert forall c :: c in s ==> c == s[0] || c in s[1..];
      if IsDigit(s[0]) {
        assert StripDigits(s) == t && DigitsOf(s) == [s[0]] + DigitsOf(s[1..]);
        SublistCons(t, s[1..], s[0]);
      } else {
        var r := [s[0]] + t;
        assert StripDigits(s) == r && DigitsOf(s) == DigitsOf(s[1..]);
        assert r[1..] == t;
        assert forall i :: 1 <= i < |r| ==> r[i] == t[i - 1];
        assert !IsDigit(r[0]);
      }
    }
  }

  /** The digits of a string, in order. */
  function DigitsOf(s: string): seq<char>
  {
    if s == [] then [] else (if IsDigit(s[0]) then [s[0]] else []) + DigitsOf(s[1..])
  }

  /** A string with no digit is left alone, so stripping twice is stripping once. */
  lemma {:induction false} StripDigitsPlain(s: string)
    requires !HasDigit(s)
    ensures StripDigits(s) == s
  {
    if s != [] {
      assert !IsDigit(s[0]);
      assert forall i :: 0 <= i < |s[1..]| ==> s[1..][i] == s[i + 1];
      StripDigitsPlain(s[1..]);
      assert s == [s[0]] + s[1..];
    }
  }

  lemma StripDigitsIdempotent(s: string)
    ensures StripDigits(StripDigits(s)) == StripDigits(s)
  {
    StripDigitsFacts(s);
    StripDigitsPlain(StripDigits(s));
  }

  /** process_speech on the tokenizer's sentences: the first and last sentences dropped, the
      rest joined by spaces, and every digit removed. */
  function ProcessSpeech(sentences: seq<string>): string
  {
    StripDigits(Join(Interior(sentences), " "))
  }

  /** The processed speech has no digit, keeps the other characters of the interior sentences
      in order, and is empty for two sentences or fewer. */
  lemma ProcessSpeechFacts(sentences: seq<string>)
    ensures !HasDigit(ProcessSpeech(sentences))
    ensures Sublist(ProcessSpeech(sentences), Join(Interior(sentences), " "))
    ensures |sentences| <= 2 ==> ProcessSpeech(sentences) == ""
  {
    StripDigitsFacts(Join(Interior(sentences), " "));
  }

  // ---------------------------------------------------------------------------------------
  // process_pos

  /** `[sent for sent in sentences[1:-1] if "NONE" not in sent]`. */
  function TaggedSentences(sentences: seq<string>): seq<string>
  {
    WithoutNone(Interior(sentences))
  }

  function WithoutNone(ss: seq<string>): seq<string>
  {
    if ss == [] then [] else (if Contains(ss[0], "NONE") then [] else [ss[0]]) + WithoutNone(ss[1..])
  }

  lemma {:induction false} WithoutNoneFacts(ss: seq<string>)
    ensures forall s :: s in WithoutNone(ss) <==> s in ss && !Contains(s, "NONE")
    ensures Sublist(WithoutNone(ss), ss)
  {
    if ss != [] {
      WithoutNoneFacts(ss[1..]);
      if Contains(ss[0], "NONE") {
        assert WithoutNone(ss) == WithoutNone(ss[1..]);
        SublistCons(WithoutNone(ss[1..]), ss[1..], ss[0]);
        assert [ss[0]] + ss[1..] == ss;
      } else {
        assert WithoutNone(ss) == [ss[0]] + WithoutNone(ss[1..]);
        assert ([ss[0]] + WithoutNone(ss[1..]))[1..] == WithoutNone(ss[1..]);
      }
      assert ss == [ss[0]] + ss[1..];
    }
  }

  /** The sentences kept are interior ones without a tagging error, in order; a tokenizer
      output of two sentences or fewer keeps none. */
  lemma TaggedSentencesFacts(sentences: seq<string>)
    ensures forall s :: s in TaggedSentences(sentences) <==>
      (exists i :: 0 < i < |sentences| - 1 && sentences[i] == s) && !Contains(s, "NONE")
    ensures Sublist(TaggedSentences(sentences), Interior(sentences))
    ensures |sentences| <= 2 ==> TaggedSentences(sentences) == []
  {
    var inner := Interior(sentences);
    WithoutNoneFacts(inner);
    forall s ensures s in inner <==> exists i :: 0 < i < |sentences| - 1 && sentences[i] == s {
      if s in inner {
        var k :| 0 <= k < |inner| && inner[k] == s;
        assert sentences[k + 1] == s;
      }
      if exists i :: 0 < i < |sentences| - 1 && sentences[i] == s {
        var i :| 0 < i < |sentences| - 1 && sentences[i] == s;
        assert inner[i - 1] == s;
      }
    }
  }

  /** Regex class `[^a-zA-Z ]`: neither a letter nor a space. */
  predicate IsMark(c: char) { !IsLetter(c) && c != ' ' }

  /** Length of the run of marks that starts `s`: what `[^a-zA-Z ]+` matches greedily. */
  function MarkRun(s: string): (n: nat)
    ensures n <= |s|
    ensures forall i :: 0 <= i < n ==> IsMark(s[i])
    ensures n < |s| ==> !IsMark(s[n])
  {
    if s == [] || !IsMark(s[0]) then 0 else 1 + MarkRun(s[1..])
  }

  /** `re.sub(" [^a-zA-Z ]+", "", s)`: scanning from the left, each space followed by a mark
      is deleted together with the whole run of marks after it. */
  function StripMarks(s: string): string
    decreases |s|
  {
    if s == [] then []
    else if s[0] == ' ' && |s| > 1 && IsMark(s[1]) then StripMarks(s[1 + MarkRun(s[1..])..])
    else [s[0]] + StripMarks(s[1..])
  }

  /** No space in the text is directly followed by a mark. */
  predicate NoMarkAfterSpace(s: string)
  {
    forall i :: 0 <= i < |s| - 1 && s[i] == ' ' ==> !IsMark(s[i + 1])
  }

  /** Text whose first character is no mark loses no mark at its front. */
  lemma {:induction false} StripMarksHead(s: string)
    requires s == [] || !IsMark(s[0])
    ensures StripMarks(s) == [] || !IsMark(StripMarks(s)[0])
    decreases |s|
  {
    if s != [] && s[0] == ' ' && |s| > 1 && IsMark(s[1]) {
      var n := MarkRun(s[1..]);
      StripMarksHead(s[1 + n..]);
    }
  }

  /** After the substitution no space is followed by a mark. */
  lemma {:induction false} StripMarksClean(s: string)
    ensures NoMarkAfterSpace(StripMarks(s))
    decreases |s|
  {
    if s != [] {
      if s[0] == ' ' && |s| > 1 && IsMark(s[1]) {
        StripMarksClean(s[1 + MarkRun(s[1..])..]);
      } else {
        StripMarksClean(s[1..]);
        var t := StripMarks(s[1..]);
        var r := [s[0]] + t;
        if s[0] == ' ' {
          StripMarksHead(s[1..]);
        }
        forall i | 0 <= i < |r| - 1 && r[i] == ' ' ensures !IsMark(r[i + 1]) {
          if i > 0 {
            assert r[i] == t[i - 1] && r[i + 1] == t[i];
          }
        }
      }
    }
  }

  /** Text where no space is followed by a mark is left alone, so the substitution is
      idempotent. */
  lemma {:induction false} StripMarksPlain(s: string)
    requires NoMarkAfterSpace(s)
    ensures StripMarks(s) == s
  {
    if s != [] {
      assert forall i :: 0 <= i < |s[1..]| ==> s[1..][i] == s[i + 1];
      StripMarksPlain(s[1..]);
      assert s == [s[0]] + s[1..];
    }
  }

  lemma StripMarksIdempotent(s: string)
    ensures StripMarks(StripMarks(s)) == StripMarks(s)
  {
    StripMarksClean(s);
    StripMarksPlain(StripMarks(s));
  }

  /** The letters of a string, in order. */
  function LettersOf(s: string): string
  {
    if s == [] then [] else (if IsLetter(s[0]) then [s[0]] else []) + LettersOf(s[1..])
  }

  /** Dropping a front without letters drops no letter. */
  lemma {:induction false} LettersOfMarks(s: string, n: nat)
    requires n <= |s| && forall i :: 0 <= i < n ==> !IsLetter(s[i])
    ensures LettersOf(s) == LettersOf(s[n..])
  {
    if n > 0 {
      assert forall i :: 0 <= i < n - 1 ==> s[1..][i] == s[i + 1];
      LettersOfMarks(s[1..], n - 1);
      assert LettersOf(s) == LettersOf(s[1..]);
      assert s[1..][n - 1..] == s[n..];
    }
  }

  /** The substitution deletes no letter: the letters of the text are kept, in order. */
  lemma {:induction false} StripMarksLetters(s: string)
    ensures LettersOf(StripMarks(s)) == LettersOf(s)
    decreases |s|
  {
    if s != [] {
      if s[0] == ' ' && |s| > 1 && IsMark(s[1]) {
        var n := MarkRun(s[1..]);
        var rest := s[1 + n..];
        assert StripMarks(s) == StripMarks(rest);
        StripMarksLetters(rest);
        assert forall i :: 0 <= i < 1 + n ==> !IsLetter(s[i]) by {
          assert forall i :: 1 <= i < 1 + n ==> s[i] == s[1..][i - 1];
        }
        LettersOfMarks(s, 1 + n);
      } else {
        var t := StripMarks(s[1..]);
        assert StripMarks(s) == [s[0]] + t;
        StripMarksLetters(s[1..]);
        LettersOfCons(s[0], t);
        LettersOfCons(s[0], s[1..]);
        assert [s[0]] + s[1..] == s;
      }
    }
  }

  lemma LettersOfCons(c: char, t: string)
    ensures LettersOf([c] + t) == (if IsLetter(c) then [c] else []) + LettersOf(t)
  {
    assert ([c] + t)[1..] == t;
  }

  /** process_pos on the tokenizer's sentences. */
  function ProcessPos(sentences: seq<string>): string
  {
    StripMarks(Join(TaggedSentences(sentences), " "))
  }

  /** The processed tags have no space followed by a mark, keep every letter of the kept
      sentences in order, and are empty for two sentences or fewer. */
  lemma ProcessPosFacts(sentences: seq<string>)
    ensures NoMarkAfterSpace(ProcessPos(sentences))
    ensures LettersOf(ProcessPos(sentences)) == LettersOf(Join(TaggedSentences(sentences), " "))
    ensures |sentences| <= 2 ==> ProcessPos(sentences) == ""
  {
    StripMarksClean(Join(TaggedSentences(sentences), " "));
    StripMarksLetters(Join(TaggedSentences(sentences), " "));
    TaggedSentencesFacts(sentences);
  }
}
