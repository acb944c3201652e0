/** Character classes and string operations shared by the whole model: the ASCII classes the
    regular expressions of the repository use, substring search, Python's `str.split(sep)`,
    `sep.join(parts)` and `str.split()`. */
module Text {

  datatype Option<T> = None | Some(value: T)

  /** Regex class `[a-zA-Z]`. */
  predicate IsLetter(c: char) { 'a' <= c <= 'z' || 'A' <= c <= 'Z' }

  /** Regex class `[0-9]`. */
  predicate IsDigit(c: char) { '0' <= c <= '9' }

  /** Whitespace as Python 2's `str.split()` sees it. */
  predicate IsSpace(c: char)
  {
    c == ' ' || c == '\t' || c == '\n' || c == '\r' || c == '\U{000B}' || c == '\U{000C}'
  }

  /** ASCII case folding, as `re.IGNORECASE` applies it to byte strings. */
  function ToLower(c: char): (r: char)
    ensures IsLetter(c) <==> IsLetter(r)
    ensures !('A' <= r <= 'Z')
    ensures 'a' <= c <= 'z' || !IsLetter(c) ==> r == c
  {
    if 'A' <= c <= 'Z' then (c as int + 32) as char else c
  }

  function LowerString(s: string): (r: string)
    ensures |r| == |s|
    ensures forall i :: 0 <= i < |s| ==> r[i] == ToLower(s[i])
  {
    if s == [] then [] else [ToLower(s[0])] + LowerString(s[1..])
  }

  predicate EqualsIgnoreCase(a: string, b: string)
  {
    |a| == |b| && forall i :: 0 <= i < |a| ==> ToLower(a[i]) == ToLower(b[i])
  }

  predicate HasLetter(s: string) { exists i :: 0 <= i < |s| && IsLetter(s[i]) }

  predicate HasDigit(s: string) { exists i :: 0 <= i < |s| && IsDigit(s[i]) }

  /** `sub` occurs in `s` starting at index `i`. */
  predicate OccursAt(s: string, sub: string, i: int)
  {
    0 <= i && i + |sub| <= |s| && s[i..i + |sub|] == sub
  }

  /** Python's `sub in s`. */
  predicate Contains(s: string, sub: string)
  {
    exists i | 0 <= i <= |s| - |sub| :: OccursAt(s, sub, i)
  }

  lemma ContainsAt(s: string, sub: string, i: int)
    requires OccursAt(s, sub, i)
    ensures Contains(s, sub)
  {
  }

  /** A character of `sub` that never occurs in `s` rules out every occurrence. */
  lemma MissingCharNotContained(s: string, sub: string, k: nat)
    requires k < |sub|
    requires forall i :: 0 <= i < |s| ==> s[i] != sub[k]
    ensures !Contains(s, sub)
  {
    forall i | 0 <= i <= |s| - |sub| ensures !OccursAt(s, sub, i) {
      assert s[i..i + |sub|][k] == s[i + k];
    }
  }

  lemma OccursAtFirst(s: string, sub: string, i: int)
    requires |sub| > 0 && OccursAt(s, sub, i)
    ensures s[i] == sub[0]
  {
    assert s[i..i + |sub|][0] == s[i];
  }

  /** Smallest index at or after `from` where `sub` occurs (Python's `s.find(sub, from)`). */
  function FindFrom(s: string, sub: string, from: nat): (r: Option<nat>)
    ensures r.Some? ==> from <= r.value && OccursAt(s, sub, r.value)
    ensures r.Some? ==> forall j :: from <= j < r.value ==> !OccursAt(s, sub, j)
    ensures r.None? ==> forall j :: from <= j ==> !OccursAt(s, sub, j)
    decreases |s| - from
  {
    if from + |sub| > |s| then None
    else if s[from..from + |sub|] == sub then Some(from)
    else FindFrom(s, sub, from + 1)
  }

  function Find(s: string, sub: string): (r: Option<nat>)
    ensures r.Some? ==> OccursAt(s, sub, r.value) && forall j :: 0 <= j < r.value ==> !OccursAt(s, sub, j)
    ensures r.None? <==> !Contains(s, sub)
  {
    FindFrom(s, sub, 0)
  }

  /** Python's `sep.join(parts)`. */
  function Join(parts: seq<string>, sep: string): string
    decreases |parts|
  {
    if |parts| == 0 then ""
    else if |parts| == 1 then parts[0]
    else parts[0] + sep + Join(parts[1..], sep)
  }

  lemma JoinAppend(parts: seq<string>, last: string, sep: string)
    requires |parts| > 0
    ensures Join(parts + [last], sep) == Join(parts, sep) + sep + last
    decreases |parts|
  {
    if |parts| == 1 {
      assert parts + [last] == [parts[0], last];
    } else {
      assert (parts + [last])[1..] == parts[1..] + [last];
      JoinAppend(parts[1..], last, sep);
    }
  }

  /** Python's `s.split(sep)`: the pieces between the non-overlapping occurrences of `sep`,
      found from left to right. */
  function Split(s: string, sep: string): (parts: seq<string>)
    requires |sep| > 0
    ensures |parts| > 0
    decreases |s|
  {
    match Find(s, sep)
    case None => [s]
    case Some(k) => [s[..k]] + Split(s[k + |sep|..], sep)
  }

  /** Joining the pieces of a split with the same separator gives back the string. */
  lemma {:induction false} JoinSplit(s: string, sep: string)
    requires |sep| > 0
    ensures Join(Split(s, sep), sep) == s
    decreases |s|
  {
    match Find(s, sep)
    case None =>
    case Some(k) =>
      var rest := s[k + |sep|..];
      JoinSplit(rest, sep);
      assert Split(s, sep) == [s[..k]] + Split(rest, sep);
      assert s == s[..k] + sep + rest;
  }

  /** No piece of a split contains the separator. */
  lemma {:induction false} SplitPiecesFree(s: string, sep: string)
    requires |sep| > 0
    ensures forall p :: p in Split(s, sep) ==> !Contains(p, sep)
    decreases |s|
  {
    match Find(s, sep)
    case None =>
    case Some(k) =>
      SplitPiecesFree(s[k + |sep|..], sep);
      PrefixBeforeFirst(s, sep, k);
  }

  /** The text before the first occurrence does not contain the separator. */
  lemma PrefixBeforeFirst(s: string, sep: string, k: nat)
    requires |sep| > 0 && k <= |s| && forall j :: 0 <= j < k ==> !OccursAt(s, sep, j)
    ensures !Contains(s[..k], sep)
  {
    var head := s[..k];
    forall j | 0 <= j <= |head| - |sep| ensures !OccursAt(head, sep, j) {
      assert s[j..j + |sep|] == head[j..j + |sep|];
      assert !OccursAt(s, sep, j);
    }
  }

  /** Splitting a join gives back the parts when no part holds the separator's first character. */
  lemma {:induction false} SplitJoin(parts: seq<string>, sep: string)
    requires |sep| > 0 && |parts| > 0
    requires forall p, i :: p in parts && 0 <= i < |p| ==> p[i] != sep[0]
    ensures Split(Join(parts, sep), sep) == parts
    decreases |parts|
  {
    var p0 := parts[0];
    assert p0 in parts;
    if |parts| == 1 {
      SplitPlain(p0, sep);
    } else {
      assert forall p :: p in parts[1..] ==> p in parts;
      SplitStep(p0, sep, Join(parts[1..], sep));
      SplitJoin(parts[1..], sep);
      assert parts == [p0] + parts[1..];
    }
  }

  /** A string without the separator's first character splits into itself. */
  lemma SplitPlain(u: string, sep: string)
    requires |sep| > 0 && forall i :: 0 <= i < |u| ==> u[i] != sep[0]
    ensures Split(u, sep) == [u]
  {
    MissingCharNotContained(u, sep, 0);
  }

  /** Before the first separator there is a part without the separator's first character. */
  lemma SplitStep(u: string, sep: string, rest: string)
    requires |sep| > 0 && forall i :: 0 <= i < |u| ==> u[i] != sep[0]
    ensures Split(u + sep + rest, sep) == [u] + Split(rest, sep)
  {
    var s := u + sep + rest;
    FindAfterPlain(u, sep, rest);
    assert s[..|u|] == u;
    assert s[|u| + |sep|..] == rest;
  }

  lemma FindAfterPlain(u: string, sep: string, rest: string)
    requires |sep| > 0 && forall i :: 0 <= i < |u| ==> u[i] != sep[0]
    ensures Find(u + sep + rest, sep) == Some(|u|)
  {
    var s := u + sep + rest;
    assert OccursAt(s, sep, |u|) by {
      assert s[|u|..|u| + |sep|] == sep;
    }
    forall j | 0 <= j < |u| ensures !OccursAt(s, sep, j) {
      assert s[j] == u[j];
      if OccursAt(s, sep, j) { OccursAtFirst(s, sep, j); }
    }
  }

  /** Length of the run of non-whitespace characters that starts `s`. */
  function WordLength(s: string): (n: nat)
    ensures n <= |s|
    ensures forall i :: 0 <= i < n ==> !IsSpace(s[i])
    ensures n < |s| ==> IsSpace(s[n])
  {
    if s == [] || IsSpace(s[0]) then 0 else 1 + WordLength(s[1..])
  }

  /** Python 2's `s.split()` with no argument: the maximal runs of non-whitespace. */
  function Words(s: string): (ws: seq<string>)
    ensures forall w :: w in ws ==> IsWord(w)
    decreases |s|
  {
    if s == [] then []
    else if IsSpace(s[0]) then Words(s[1..])
    else
      var n := WordLength(s);
      [s[..n]] + Words(s[n..])
  }

  /** What every element of `Words(s)` is: a non-empty string without whitespace. */
  predicate IsWord(w: string)
  {
    |w| > 0 && forall i :: 0 <= i < |w| ==> !IsSpace(w[i])
  }
}
