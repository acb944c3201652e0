/** The two speech extractors of make_data.py. They cut the radio address itself out of the
    text of a transcript page: `extract_obama_speech` skips a header by scanning its lines,
    `extract_bush_speech` looks for the speaker label and falls back to a line scan, then cuts
    the closing "END" marker. */
module SpeechExtraction {
  import opened Text
  import opened Cleaning

  // ---------------------------------------------------------------------------------------
  // Lines

  /** `[remove_extra_spaces(line) for line in pieces if re.search("[a-zA-Z]", line)]`. */
  function KeptLines(pieces: seq<string>): seq<string>
  {
    if pieces == [] then []
    else (if HasLetter(pieces[0]) then [RemoveExtraSpaces(pieces[0])] else []) + KeptLines(pieces[1..])
  }

  /** The lines of a speech: each has a letter and is normalised, so none holds a newline. */
  predicate SpeechLines(lines: seq<string>)
  {
    forall l :: l in lines ==> HasLetter(l) && Normalised(l)
  }

  /** A letter of the text is a letter of its normalisation. */
  lemma LetterKept(s: string)
    requires HasLetter(s)
    ensures HasLetter(RemoveExtraSpaces(s))
  {
    var i :| 0 <= i < |s| && IsLetter(s[i]);
    RemoveExtraSpacesKeeps(s, s[i]);
    var r := RemoveExtraSpaces(s);
    var j :| 0 <= j < |r| && r[j] == s[i];
    assert IsLetter(r[j]);
  }

  /** A kept line is a normalised line with a letter made from a piece with a letter, and
      every piece with a letter gives one. */
  lemma {:induction false} KeptLinesMembers(pieces: seq<string>)
    ensures forall l :: l in KeptLines(pieces) <==>
      exists p :: p in pieces && HasLetter(p) && l == RemoveExtraSpaces(p)
    ensures SpeechLines(KeptLines(pieces))
  {
    if pieces != [] {
      KeptLinesMembers(pieces[1..]);
      var p := pieces[0];
      if HasLetter(p) {
        LetterKept(p);
        RemoveExtraSpacesNormalised(p);
      }
      assert pieces == [p] + pieces[1..];
    }
  }

  /** A line of a speech holds no newline. */
  lemma NoNewline(lines: seq<string>)
    requires SpeechLines(lines)
    ensures forall l, i :: l in lines && 0 <= i < |l| ==> l[i] != '\n'
  {
  }

  /** The paragraphs of text built by joining speech lines with blank lines are those lines. */
  lemma ParagraphsOf(lines: seq<string>)
    requires |lines| > 0 && SpeechLines(lines)
    ensures Split(Join(lines, "\n\n"), "\n\n") == lines
  {
    NoNewline(lines);
    SplitJoin(lines, "\n\n");
  }

  // ---------------------------------------------------------------------------------------
  // Line scanners

  /** Index of the first line at or after `from` that mentions "Remarks", or `|lines|`. */
  function FirstRemarks(lines: seq<string>, from: nat): (k: nat)
    requires from <= |lines|
    ensures from <= k <= |lines|
    ensures k < |lines| ==> Contains(lines[k], "Remarks")
    ensures forall j :: from <= j < k ==> !Contains(lines[j], "Remarks")
    decreases |lines| - from
  {
    if from == |lines| || Contains(lines[from], "Remarks") then from
    else FirstRemarks(lines, from + 1)
  }

  /** Where a scan from `from` for a line of at least `n` words stops: the first such line,
      or `from` itself once `from` is past the last line. */
  function FirstLong(lines: seq<string>, from: nat, n: nat): (k: nat)
    ensures from <= k
    ensures k == from || k <= |lines|
    ensures k < |lines| ==> n <= |Words(lines[k])|
    ensures forall j :: from <= j < k ==> j < |lines| && |Words(lines[j])| < n
    decreases |lines| - from
  {
    if from >= |lines| || n <= |Words(lines[from])| then from
    else FirstLong(lines, from + 1, n)
  }

  /** The scan finds a line exactly when some line at or after `from` is long enough. */
  lemma FirstLongFound(lines: seq<string>, from: nat, n: nat)
    ensures FirstLong(lines, from, n) < |lines| <==>
      exists j :: from <= j < |lines| && n <= |Words(lines[j])|
  {
    var k := FirstLong(lines, from, n);
    if k >= |lines| {
      forall j | from <= j < |lines| ensures |Words(lines[j])| < n {
        assert j < k;
      }
    }
  }

  // ---------------------------------------------------------------------------------------
  // extract_obama_speech

  /** The text before the first "# ", translated. */
  function ObamaChunk(content: string): string
  {
    Translated(Split(content, "# ")[0])
  }

  /** The address was given by someone other than the President. */
  predicate WrongSpeaker(chunk: string)
  {
    Contains(chunk, "THE FIRST LADY") || Contains(chunk, "Michelle Obama") || Contains(chunk, "Joe Biden")
  }

  /** The lines of the chunk. After the translation the chunk holds no carriage return, so its
      line breaks are its newlines; a line-splitting that drops a final empty line gives the
      same kept lines, since an empty line has no letter. */
  function ObamaLines(chunk: string): seq<string>
  {
    KeptLines(Split(chunk, "\n"))
  }

  /** Where the speech starts: the first line of at least 10 words after the first line that
      mentions "Remarks"; past the last line when there is none. */
  function SpeechStart(lines: seq<string>): nat
  {
    FirstLong(lines, FirstRemarks(lines, 0) + 1, 10)
  }

  /** The whole extraction as a function of the page content (`None` for Python's None). */
  function ObamaSpeech(content: Option<string>): Option<string>
  {
    if content.None? || content.value == [] then None
    else
      var chunk := ObamaChunk(content.value);
      if WrongSpeaker(chunk) then None
      else
        var lines := ObamaLines(chunk);
        var i := SpeechStart(lines);
        if i >= |lines| then None else Some(Join(lines[i..], "\n\n"))
  }

  /** The two scanning loops: past the intro up to the "Remarks" line, then past the header
      up to the first line long enough to be a paragraph. */
  method SkipHeader(lines: seq<string>) returns (i: nat)
    ensures i == SpeechStart(lines)
  {
    i := 0;
    while i < |lines| && !Contains(lines[i], "Remarks")
      invariant i <= |lines| && FirstRemarks(lines, i) == FirstRemarks(lines, 0)
      decreases |lines| - i
    {
      i := i + 1;
    }
    i := i + 1;
    ghost var start := i;
    while i < |lines| && |Words(lines[i])| < 10
      invariant start <= i && FirstLong(lines, i, 10) == FirstLong(lines, start, 10)
      decreases |lines| - i
    {
      i := i + 1;
    }
  }

  method ExtractObamaSpeech(content: Option<string>) returns (r: Option<string>)
    ensures r == ObamaSpeech(content)
  {
    if content.None? || content.value == [] {
      return None;
    }
    SourceVocabFor();
    var chunk := TranslateFromUnicode(Split(content.value, "# ")[0], SourceVocab);
    if WrongSpeaker(chunk) {
      return None;
    }
    var lines := ObamaLines(chunk);
    var i := SkipHeader(lines);
    if i >= |lines| {
      return None;
    }
    r := Some(Join(lines[i..], "\n\n"));
  }

  /** When the extraction finds nothing: no content, a wrong speaker, no line mentioning
      "Remarks", or no line of at least 10 words after the first one that does. */
  lemma ObamaNone(content: Option<string>)
    ensures ObamaSpeech(content).None? <==>
      content.None? || content.value == [] || WrongSpeaker(ObamaChunk(content.value)) ||
      (var lines := ObamaLines(ObamaChunk(content.value));
       FirstRemarks(lines, 0) == |lines| ||
       !exists j :: FirstRemarks(lines, 0) < j < |lines| && 10 <= |Words(lines[j])|)
  {
    if content.Some? && content.value != [] {
      var lines := ObamaLines(ObamaChunk(content.value));
      FirstLongFound(lines, FirstRemarks(lines, 0) + 1, 10);
    }
  }

  /** What a found speech is: its paragraphs are the lines from the first line of at least 10
      words after the first "Remarks" line onwards, in order, each with a letter and
      normalised; the lines in between are shorter. */
  lemma ObamaFound(content: Option<string>)
    requires ObamaSpeech(content).Some?
    ensures var lines := ObamaLines(ObamaChunk(content.value));
      var r := FirstRemarks(lines, 0);
      var i := SpeechStart(lines);
      var paragraphs := Split(ObamaSpeech(content).value, "\n\n");
      r < i < |lines| && Contains(lines[r], "Remarks") &&
      (forall j :: 0 <= j < r ==> !Contains(lines[j], "Remarks")) &&
      10 <= |Words(lines[i])| &&
      (forall j :: r < j < i ==> |Words(lines[j])| < 10) &&
      paragraphs == lines[i..] && paragraphs[0] == lines[i] &&
      SpeechLines(paragraphs)
  {
    var lines := ObamaLines(ObamaChunk(content.value));
    var i := SpeechStart(lines);
    KeptLinesMembers(Split(ObamaChunk(content.value), "\n"));
    assert forall l :: l in lines[i..] ==> l in lines;
    ParagraphsOf(lines[i..]);
  }

  // ---------------------------------------------------------------------------------------
  // extract_bush_speech

  /** What the Bush extractor gives back: Python's None, the speech, or the IndexError that
      escapes its fallback loop when no line is long enough. */
  datatype Extracted = NoSpeech | Speech(text: string) | IndexFailure

  /** `[remove_extra_spaces(translate_from_unicode(p)) for p in paragraphs if re.search("[a-zA-Z]", p)]`;
      the translation is `Translated`, which `TranslateFromUnicode` computes. */
  function BushLines(paragraphs: seq<string>): seq<string>
  {
    if paragraphs == [] then []
    else
      (if HasLetter(paragraphs[0]) then [RemoveExtraSpaces(Translated(paragraphs[0]))] else []) +
      BushLines(paragraphs[1..])
  }

  /** A letter is not a mapped character, so it survives the translation. */
  lemma TranslatedLetter(s: string)
    requires HasLetter(s)
    ensures HasLetter(Translated(s))
  {
    var i :| 0 <= i < |s| && IsLetter(s[i]);
    TranslatedKeeps(s, s[i]);
    var t := Translated(s);
    var j :| 0 <= j < |t| && t[j] == s[i];
    assert IsLetter(t[j]);
  }

  lemma {:induction false} BushLinesShape(paragraphs: seq<string>)
    ensures SpeechLines(BushLines(paragraphs))
    ensures |BushLines(paragraphs)| <= |paragraphs|
  {
    if paragraphs != [] {
      BushLinesShape(paragraphs[1..]);
      var p := paragraphs[0];
      if HasLetter(p) {
        TranslatedLetter(p);
        LetterKept(Translated(p));
        RemoveExtraSpacesNormalised(Translated(p));
      }
    }
  }

  /** Number of spaces from index `i` on: what ` *` consumes there. */
  function SpaceRun(s: string, i: nat): (n: nat)
    ensures n == 0 || i + n <= |s|
    ensures forall j :: i <= j < i + n ==> s[j] == ' '
    ensures i + n < |s| ==> s[i + n] != ' '
    decreases |s| - i
  {
    if i < |s| && s[i] == ' ' then 1 + SpaceRun(s, i + 1) else 0
  }

  /** Length of the match of `PRESIDENT: *|BUSH: *` at index `i`, if the pattern matches there. */
  function MarkerAt(s: string, i: nat): (r: Option<nat>)
    ensures r.Some? <==> OccursAt(s, "PRESIDENT:", i) || OccursAt(s, "BUSH:", i)
    ensures r.Some? ==> 0 < r.value && i + r.value <= |s|
    ensures r.Some? && i + r.value < |s| ==> s[i + r.value] != ' '
  {
    if OccursAt(s, "PRESIDENT:", i) then Some(10 + SpaceRun(s, i + 10))
    else if OccursAt(s, "BUSH:", i) then Some(5 + SpaceRun(s, i + 5))
    else None
  }

  /** The leftmost match of the marker pattern at or after `from`. */
  function FindMarker(s: string, from: nat): (r: Option<nat>)
    ensures r.Some? ==> from <= r.value < |s| && MarkerAt(s, r.value).Some?
    ensures forall j :: from <= j && (r.None? || j < r.value) ==> MarkerAt(s, j).None?
    decreases |s| - from
  {
    if from >= |s| then None
    else if MarkerAt(s, from).Some? then Some(from)
    else FindMarker(s, from + 1)
  }

  /** `re.split("PRESIDENT: *|BUSH: *", s)[1]`: the text between the end of the first match
      and the start of the next, or the end of `s`; `None` where indexing the split raises. */
  function SecondPiece(s: string): Option<string>
  {
    match FindMarker(s, 0)
    case None => None
    case Some(m) =>
      var e := m + MarkerAt(s, m).value;
      var stop := match FindMarker(s, e) case None => |s| case Some(m2) => m2;
      Some(s[e..stop])
  }

  /** The pattern matches somewhere exactly when one of the two labels occurs. */
  lemma MarkerFound(s: string)
    ensures FindMarker(s, 0).Some? <==> Contains(s, "PRESIDENT:") || Contains(s, "BUSH:")
  {
    match FindMarker(s, 0)
    case Some(m) =>
      if OccursAt(s, "PRESIDENT:", m) { ContainsAt(s, "PRESIDENT:", m); } else { ContainsAt(s, "BUSH:", m); }
    case None =>
      forall j | 0 <= j <= |s| - 10 ensures !OccursAt(s, "PRESIDENT:", j) {
        assert MarkerAt(s, j).None?;
      }
      forall j | 0 <= j <= |s| - 5 ensures !OccursAt(s, "BUSH:", j) {
        assert MarkerAt(s, j).None?;
      }
  }

  /** An occurrence inside a slice is an occurrence in the whole text, and back. */
  lemma OccursInSlice(s: string, lo: nat, hi: nat, sub: string, j: nat)
    requires lo <= hi <= |s| && j + |sub| <= hi - lo
    ensures OccursAt(s[lo..hi], sub, j) <==> OccursAt(s, sub, lo + j)
  {
    var a, b := s[lo..hi][j..j + |sub|], s[lo + j..lo + j + |sub|];
    assert |a| == |b|;
    assert forall k :: 0 <= k < |a| ==> a[k] == s[lo + j + k] == b[k];
  }

  /** The piece after the first label holds neither label and does not start with a space. */
  lemma SecondPieceClean(s: string)
    requires SecondPiece(s).Some?
    ensures var p := SecondPiece(s).value;
      !Contains(p, "PRESIDENT:") && !Contains(p, "BUSH:") && (p == [] || p[0] != ' ')
  {
    var m := FindMarker(s, 0).value;
    var e := m + MarkerAt(s, m).value;
    var stop := match FindMarker(s, e) case None => |s| case Some(m2) => m2;
    forall k | e <= k < stop ensures !OccursAt(s, "PRESIDENT:", k) && !OccursAt(s, "BUSH:", k) {
      assert MarkerAt(s, k).None?;
    }
    SliceFree(s, e, stop, "PRESIDENT:");
    SliceFree(s, e, stop, "BUSH:");
  }

  /** A slice in which `sub` starts nowhere does not contain `sub`. */
  lemma SliceFree(s: string, lo: nat, hi: nat, sub: string)
    requires |sub| > 0 && lo <= hi <= |s| && forall k :: lo <= k < hi ==> !OccursAt(s, sub, k)
    ensures !Contains(s[lo..hi], sub)
  {
    forall j | 0 <= j && j + |sub| <= hi - lo ensures !OccursAt(s[lo..hi], sub, j) {
      OccursInSlice(s, lo, hi, sub, j);
      assert !OccursAt(s, sub, lo + j);
    }
  }

  /** The fallback loop: the index of the first line of at least 15 words, or `None` where
      the loop runs off the end of the list and raises. */
  method FirstParagraph(lines: seq<string>) returns (r: Option<nat>)
    ensures r.Some? ==> r.value == FirstLong(lines, 0, 15) < |lines|
    ensures r.None? <==> FirstLong(lines, 0, 15) >= |lines|
    ensures r.None? <==> forall l :: l in lines ==> |Words(l)| < 15
  {
    var i := 0;
    while i < |lines| && |Words(lines[i])| < 15
      invariant i <= |lines| && FirstLong(lines, i, 15) == FirstLong(lines, 0, 15)
      decreases |lines| - i
    {
      i := i + 1;
    }
    FirstLongFound(lines, 0, 15);
    if i == |lines| {
      return None;
    }
    r := Some(i);
  }

  predicate IsStop(c: char) { c == '.' || c == '!' || c == '?' }

  /** Index just after the last `.`, `!` or `?` before index `e`, or 0. */
  function StopBoundary(s: string, e: nat): (c: nat)
    requires e <= |s|
    ensures c <= e
    ensures c > 0 ==> IsStop(s[c - 1])
    ensures forall j :: c <= j < e ==> !IsStop(s[j])
  {
    if e == 0 || IsStop(s[e - 1]) then e else StopBoundary(s, e - 1)
  }

  /** `re.split("[^\.\!\?]*END", s)[0]`: the text before the first match. */
  function EndCut(s: string): (r: string)
    ensures r <= s
  {
    match Find(s, "END")
    case None => s
    case Some(e) => s[..StopBoundary(s, e)]
  }

  /** The pattern `[^.!?]*END` matches starting at index `c`. */
  ghost predicate EndMatchAt(s: string, c: nat)
  {
    exists e :: c <= e && OccursAt(s, "END", e) && forall j :: c <= j < e ==> !IsStop(s[j])
  }

  /** The cut is where the leftmost match of the end pattern starts, and the whole text when
      nothing matches; what is kept holds no "END". */
  lemma EndCutLeftmost(s: string)
    ensures Find(s, "END").None? ==> EndCut(s) == s && forall c :: !EndMatchAt(s, c)
    ensures Find(s, "END").Some? ==>
      EndMatchAt(s, |EndCut(s)|) && forall c: nat :: c < |EndCut(s)| ==> !EndMatchAt(s, c)
    ensures !Contains(EndCut(s), "END")
  {
    match Find(s, "END")
    case None =>
    case Some(e0) =>
      var cut := StopBoundary(s, e0);
      assert EndCut(s) == s[..cut];
      forall c: nat | c < cut ensures !EndMatchAt(s, c) {
        forall e | c <= e && OccursAt(s, "END", e) ensures c <= cut - 1 < e && IsStop(s[cut - 1]) {
          assert e0 <= e;
        }
      }
      forall j | 0 <= j && j + 3 <= cut ensures !OccursAt(s[..cut], "END", j) {
        OccursInSlice(s, 0, cut, "END", j);
        assert s[..cut] == s[0..cut];
      }
  }

  /** The text after the label, or, with no label, the lines from the first one of at least 15
      words; `None` for the IndexError. */
  function BushChunk(lines: seq<string>): Option<string>
  {
    match SecondPiece(Join(lines, "\n\n"))
    case Some(p) => Some(p)
    case None =>
      var i := FirstLong(lines, 0, 15);
      if i < |lines| then Some(Join(lines[i..], "\n\n")) else None
  }

  /** What follows the chunk: the cut at "END", then the check for Laura Bush. */
  function Finish(chunk: string): Extracted
  {
    var t := EndCut(chunk);
    if Contains(t, "Laura Bush") then NoSpeech else Speech(t)
  }

  function BushSpeech(paragraphs: seq<string>): Extracted
  {
    if paragraphs == [] then NoSpeech
    else
      match BushChunk(BushLines(paragraphs))
      case None => IndexFailure
      case Some(chunk) => Finish(chunk)
  }

  method ExtractBushSpeech(paragraphs: seq<string>) returns (r: Extracted)
    ensures r == BushSpeech(paragraphs)
  {
    if paragraphs == [] {
      return NoSpeech;
    }
    var lines := BushLines(paragraphs);
    var merged := Join(lines, "\n\n");
    var chunk: string;
    match SecondPiece(merged) {
      case Some(p) =>
        chunk := p;
      case None =>
        var i := FirstParagraph(lines);
        if i.None? {
          return IndexFailure;
        }
        chunk := Join(lines[i.value..], "\n\n");
    }
    chunk := EndCut(chunk);
    if Contains(chunk, "Laura Bush") {
      return NoSpeech;
    }
    r := Speech(chunk);
  }

  /** A prefix of a text without `sub` is without `sub`. */
  lemma PrefixFree(p: string, t: string, sub: string)
    requires t <= p && !Contains(p, sub)
    ensures !Contains(t, sub)
  {
    forall j | 0 <= j && j + |sub| <= |t| ensures !OccursAt(t, sub, j) {
      assert t == p[0..|t|];
      OccursInSlice(p, 0, |t|, sub, j);
      assert !OccursAt(p, sub, j);
    }
  }

  /** The end of the processing never fails; a speech it keeps is a start of the chunk and
      holds neither "Laura Bush" nor "END". */
  lemma FinishFacts(chunk: string)
    ensures !Finish(chunk).IndexFailure?
    ensures Finish(chunk).Speech? ==>
      Finish(chunk).text <= chunk && !Contains(Finish(chunk).text, "Laura Bush") &&
      !Contains(Finish(chunk).text, "END")
    ensures Finish(chunk).NoSpeech? <==> Contains(EndCut(chunk), "Laura Bush")
  {
    EndCutLeftmost(chunk);
  }

  /** The chunk: after a label it is the piece after the first label, which holds no label;
      without one it is the lines from the first of at least 15 words, and the IndexError
      comes exactly when no line has that many. */
  lemma ChunkFacts(lines: seq<string>)
    ensures var merged := Join(lines, "\n\n");
      Contains(merged, "PRESIDENT:") || Contains(merged, "BUSH:") ==>
        BushChunk(lines) == SecondPiece(merged) && BushChunk(lines).Some? &&
        !Contains(BushChunk(lines).value, "PRESIDENT:") && !Contains(BushChunk(lines).value, "BUSH:")
    ensures var merged := Join(lines, "\n\n"); var i := FirstLong(lines, 0, 15);
      !Contains(merged, "PRESIDENT:") && !Contains(merged, "BUSH:") ==>
        (BushChunk(lines).None? <==> forall l :: l in lines ==> |Words(l)| < 15) &&
        (BushChunk(lines).Some? ==>
          i < |lines| && 15 <= |Words(lines[i])| && (forall j :: 0 <= j < i ==> |Words(lines[j])| < 15) &&
          BushChunk(lines).value == Join(lines[i..], "\n\n"))
  {
    var merged := Join(lines, "\n\n");
    MarkerFound(merged);
    FirstLongFound(lines, 0, 15);
    if SecondPiece(merged).Some? {
      SecondPieceClean(merged);
    }
  }

  /** The outcomes: no speech for no paragraphs or for a cut chunk naming Laura Bush; the
      IndexError exactly when neither label occurs and no line has 15 words; a speech holds
      neither "Laura Bush" nor "END", and is the start of the chunk. */
  lemma BushOutcomes(paragraphs: seq<string>)
    ensures paragraphs == [] ==> BushSpeech(paragraphs) == NoSpeech
    ensures var lines := BushLines(paragraphs); var merged := Join(lines, "\n\n");
      BushSpeech(paragraphs).IndexFailure? <==>
        paragraphs != [] && !Contains(merged, "PRESIDENT:") && !Contains(merged, "BUSH:") &&
        forall l :: l in lines ==> |Words(l)| < 15
    ensures BushSpeech(paragraphs).Speech? ==>
      var t := BushSpeech(paragraphs).text;
      t <= BushChunk(BushLines(paragraphs)).value &&
      !Contains(t, "Laura Bush") && !Contains(t, "END")
  {
    var lines := BushLines(paragraphs);
    ChunkFacts(lines);
    match BushChunk(lines)
    case None =>
    case Some(chunk) => FinishFacts(chunk);
  }

  /** With a label present, the speech holds no label. */
  lemma BushLabelled(paragraphs: seq<string>)
    requires BushSpeech(paragraphs).Speech?
    requires var merged := Join(BushLines(paragraphs), "\n\n");
      Contains(merged, "PRESIDENT:") || Contains(merged, "BUSH:")
    ensures !Contains(BushSpeech(paragraphs).text, "PRESIDENT:")
    ensures !Contains(BushSpeech(paragraphs).text, "BUSH:")
  {
    var lines := BushLines(paragraphs);
    ChunkFacts(lines);
    var chunk := BushChunk(lines).value;
    FinishFacts(chunk);
    PrefixFree(chunk, Finish(chunk).text, "PRESIDENT:");
    PrefixFree(chunk, Finish(chunk).text, "BUSH:");
  }
}
