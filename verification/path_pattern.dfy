/** The extraction of the downloaded file's path from the batch script's
    output, i.e. the ECMAScript regular expression

        /File has been downloaded successfully to: (.*?\.mp4)/

    applied with `String.prototype.match` (no `g` flag), of which only
    capture group 1 is used.

    The meaning of the expression is stated declaratively (`MatchAt`,
    `Selected`): a match is the literal phrase followed by a capture that
    ends in ".mp4" and whose lazy part `.*?` holds no line terminator; the
    engine reports the match with the leftmost start, and at that start the
    shortest capture, because `.*?` is lazy. `ExtractPath` is a scanning
    implementation of the same search, and the lemmas below prove that the
    two agree and what the extracted path looks like. */
module PathPattern {
  import opened Options
  import opened JsString

  /** The literal part of the expression, up to the capture group. */
  const Phrase: string := "File has been downloaded successfully to: "

  /** `\.mp4`, the literal that ends the capture group. */
  const Extension: string := ".mp4"

  /** Every character of `t` can be matched by `.` (no `s` flag). */
  predicate NoLineTerminator(t: string) {
    forall k :: 0 <= k < |t| ==> !IsLineTerminator(t[k])
  }

  /** `t` occurs in `s` at index `i`. */
  predicate OccursAt(s: string, t: string, i: int) {
    0 <= i && i + |t| <= |s| && s[i..i + |t|] == t
  }

  /** The phrase occurs in `s` at index `i`. */
  predicate PhraseAt(s: string, i: int) {
    OccursAt(s, Phrase, i)
  }

  /** The group `(.*?\.mp4)` can match `s[p..j]`. */
  predicate CaptureAt(s: string, p: int, j: int) {
    && 0 <= p && p + |Extension| <= j <= |s|
    && NoLineTerminator(s[p..j - |Extension|])
    && s[j - |Extension|..j] == Extension
  }

  /** The whole expression can match `s[i..j]`. */
  predicate MatchAt(s: string, i: int, j: int) {
    PhraseAt(s, i) && CaptureAt(s, i + |Phrase|, j)
  }

  ghost predicate HasMatch(s: string) {
    exists i, j :: MatchAt(s, i, j)
  }

  /** `s[i..j]` is the match the engine reports: no match starts further
      left, and no shorter match starts at `i`. */
  ghost predicate Selected(s: string, i: int, j: int) {
    && MatchAt(s, i, j)
    && (forall i', j' :: MatchAt(s, i', j') ==> i <= i')
    && (forall j' :: MatchAt(s, i, j') ==> j <= j')
  }

  /** Lazy expansion of `.*?` for a capture that starts at `p` and whose lazy
      part currently covers `s[p..q]`: first try `\.mp4` at `q`, otherwise
      let `.` consume one more character. */
  function ShortestCaptureFrom(s: string, p: nat, q: nat): (r: Option<nat>)
    requires p <= q <= |s| && NoLineTerminator(s[p..q])
    ensures r.Some? ==> CaptureAt(s, p, r.value) && q + |Extension| <= r.value
    ensures forall j :: CaptureAt(s, p, j) && q + |Extension| <= j ==> r.Some? && r.value <= j
    decreases |s| - q
  {
    CaptureStep(s, p, q);
    if q + |Extension| <= |s| && s[q..q + |Extension|] == Extension then
      Some(q + |Extension|)
    else if q < |s| && !IsLineTerminator(s[q]) then
      assert s[p..q + 1] == s[p..q] + [s[q]];
      ShortestCaptureFrom(s, p, q + 1)
    else
      None
  }

  /** Helper of `ShortestCaptureFrom`: a capture from `p` that ends at or
      beyond `q + 4` either has ".mp4" at `q` or lets `.` consume `s[q]`. */
  lemma CaptureStep(s: string, p: int, q: int)
    requires 0 <= p <= q <= |s|
    ensures forall j :: CaptureAt(s, p, j) && q + |Extension| <= j ==>
              || (j == q + |Extension| && s[q..q + |Extension|] == Extension)
              || (q < |s| && !IsLineTerminator(s[q]) && q + 1 + |Extension| <= j)
  {
    forall j | CaptureAt(s, p, j) && q + |Extension| < j
      ensures q < |s| && !IsLineTerminator(s[q])
    {
      assert s[p..j - |Extension|][q - p] == s[q];
    }
  }

  /** The engine's outer loop: try each start index from `i` onwards and
      report the first one at which the expression matches, together with
      the end of its shortest capture. */
  function FindFrom(s: string, i: nat): (r: Option<(nat, nat)>)
    ensures r.Some? ==> MatchAt(s, r.value.0, r.value.1) && i <= r.value.0
    ensures r.Some? ==> forall i', j' :: MatchAt(s, i', j') && i <= i' ==> r.value.0 <= i'
    ensures r.Some? ==> forall j' :: MatchAt(s, r.value.0, j') ==> r.value.1 <= j'
    ensures r.None? ==> forall i', j' :: MatchAt(s, i', j') ==> i' < i
    decreases |s| - i
  {
    if i + |Phrase| > |s| then
      None
    else if PhraseAt(s, i) then
      assert s[i + |Phrase|..i + |Phrase|] == [];
      match ShortestCaptureFrom(s, i + |Phrase|, i + |Phrase|)
      case Some(j) => Some((i, j))
      case None => FindFrom(s, i + 1)
    else
      FindFrom(s, i + 1)
  }

  /** `outputPath.match(...)` followed by `match[1]`: the capture of the
      reported match, or `None` when the expression does not match. */
  function ExtractPath(s: string): (r: Option<string>)
    ensures r.None? <==> !HasMatch(s)
    ensures r.Some? ==> exists i, j :: Selected(s, i, j) && r.value == s[i + |Phrase|..j]
  {
    match FindFrom(s, 0)
    case Some((i, j)) =>
      assert Selected(s, i, j);
      Some(s[i + |Phrase|..j])
    case None => None
  }

  /** The reported match behind a path that `ExtractPath` returns. */
  lemma ReportedMatch(s: string) returns (i: nat, j: nat)
    requires ExtractPath(s).Some?
    ensures Selected(s, i, j) && ExtractPath(s) == Some(s[i + |Phrase|..j])
  {
    i, j := FindFrom(s, 0).value.0, FindFrom(s, 0).value.1;
  }

  /** Whenever the expression matches, some match is the reported one. */
  lemma LeftmostShortest(s: string) returns (i: nat, j: nat)
    requires HasMatch(s)
    ensures Selected(s, i, j)
  {
    i, j := FindFrom(s, 0).value.0, FindFrom(s, 0).value.1;
  }

  /** There is at most one reported match. */
  lemma SelectedUnique(s: string, i1: int, j1: int, i2: int, j2: int)
    requires Selected(s, i1, j1) && Selected(s, i2, j2)
    ensures i1 == i2 && j1 == j2
  {
  }

  /** The scanner and the declarative semantics agree, in both directions:
      `ExtractPath` returns `c` exactly when `c` is the capture of the match
      the regular expression reports. */
  lemma ExtractPathIsRegexMatch(s: string, c: string)
    ensures ExtractPath(s) == Some(c) <==> exists i, j :: Selected(s, i, j) && c == s[i + |Phrase|..j]
  {
    if i, j :| Selected(s, i, j) && c == s[i + |Phrase|..j] {
      SelectedGivesPath(s, i, j);
    }
  }

  /** The reported match determines the result of `ExtractPath`. */
  lemma SelectedGivesPath(s: string, i: int, j: int)
    requires Selected(s, i, j)
    ensures ExtractPath(s) == Some(s[i + |Phrase|..j])
  {
    assert HasMatch(s);
    var i', j' := ReportedMatch(s);
    SelectedUnique(s, i, j, i', j');
  }

  /** The phrase immediately followed by the extracted path is a substring
      of `s`, and it occurs at the leftmost index where any match starts. */
  lemma PhrasePrecedesPath(s: string)
    requires ExtractPath(s).Some?
    ensures exists i :: OccursAt(s, Phrase + ExtractPath(s).value, i)
                        && forall i', j' :: MatchAt(s, i', j') ==> i <= i'
  {
    var i, j := ReportedMatch(s);
    MatchIsPhraseThenCapture(s, i, j);
  }

  /** Helper of `PhrasePrecedesPath`: a match is the phrase followed by its
      capture. */
  lemma MatchIsPhraseThenCapture(s: string, i: int, j: int)
    requires MatchAt(s, i, j)
    ensures OccursAt(s, Phrase + s[i + |Phrase|..j], i)
  {
    assert s[i..j] == s[i..i + |Phrase|] + s[i + |Phrase|..j];
  }

  /** Shape of an extracted path: it ends in ".mp4" (so it is never empty)
      and, since `.` matches no line terminator, it lies on one line. */
  lemma ExtractedPathShape(s: string)
    requires ExtractPath(s).Some?
    ensures |ExtractPath(s).value| >= |Extension|
    ensures ExtractPath(s).value[|ExtractPath(s).value| - |Extension|..] == Extension
    ensures forall k :: 0 <= k < |ExtractPath(s).value| ==> !IsLineTerminator(ExtractPath(s).value[k])
  {
    var i, j := ReportedMatch(s);
    CaptureShape(s, i + |Phrase|, j);
  }

  /** Helper of `ExtractedPathShape`, for any capture. */
  lemma CaptureShape(s: string, p: int, j: int)
    requires CaptureAt(s, p, j)
    ensures s[p..j][j - p - |Extension|..] == Extension
    ensures NoLineTerminator(s[p..j])
  {
    var c := s[p..j];
    assert c[|c| - |Extension|..] == s[j - |Extension|..j];
    forall k | 0 <= k < |c|
      ensures !IsLineTerminator(c[k])
    {
      if k < |c| - |Extension| {
        assert c[k] == s[p..j - |Extension|][k];
      } else {
        assert c[k] == Extension[k - (|c| - |Extension|)];
      }
    }
  }

  /** Laziness: ".mp4" occurs in an extracted path only as its last four
      characters, so no proper prefix of the path would itself be a capture. */
  lemma ExtractedPathIsLazy(s: string, k: int)
    requires ExtractPath(s).Some?
    requires OccursAt(ExtractPath(s).value, Extension, k)
    ensures k == |ExtractPath(s).value| - |Extension|
  {
    var i, j := ReportedMatch(s);
    SelectedCaptureIsLazy(s, i, j, k);
  }

  /** Helper of `ExtractedPathIsLazy`, for the reported match `s[i..j]`. */
  lemma SelectedCaptureIsLazy(s: string, i: int, j: int, k: int)
    requires Selected(s, i, j)
    requires OccursAt(s[i + |Phrase|..j], Extension, k)
    ensures k == j - i - |Phrase| - |Extension|
  {
    var p := i + |Phrase|;
    if k < j - p - |Extension| {
      SliceOfSlice(s, p, j, k, k + |Extension|);
      EarlierExtensionEndsCapture(s, p, j, p + k);
      assert MatchAt(s, i, p + k + |Extension|);
    }
  }

  /** Helper of `ExtractedPathIsLazy`: an earlier ".mp4" inside a capture
      ends a shorter capture. */
  lemma EarlierExtensionEndsCapture(s: string, p: int, j: int, q: int)
    requires CaptureAt(s, p, j) && p <= q && q + |Extension| <= j
    requires OccursAt(s, Extension, q)
    ensures CaptureAt(s, p, q + |Extension|)
  {
    forall k | 0 <= k < q - p
      ensures !IsLineTerminator(s[p..q][k])
    {
      assert s[p..q][k] == s[p..j - |Extension|][k];
    }
  }

  /** A path is found exactly when some occurrence of the phrase is followed,
      on the same line, by ".mp4". */
  lemma PathIffPhraseThenExtensionOnLine(s: string)
    ensures ExtractPath(s).Some? <==>
      exists i, q :: && OccursAt(s, Phrase, i) && OccursAt(s, Extension, q)
                     && i + |Phrase| <= q && NoLineTerminator(s[i + |Phrase|..q])
  {
    if i, q :| && OccursAt(s, Phrase, i) && OccursAt(s, Extension, q)
               && i + |Phrase| <= q && NoLineTerminator(s[i + |Phrase|..q]) {
      assert MatchAt(s, i, q + |Extension|);
    }
    if ExtractPath(s).Some? {
      var i, j :| MatchAt(s, i, j);
      assert OccursAt(s, Extension, j - |Extension|);
    }
  }

  /** Matching inside a slice `s[a..b]` is matching in `s`, shifted by `a`. */
  lemma MatchInSlice(s: string, a: int, b: int, i: int, j: int)
    requires 0 <= a <= i <= j <= b <= |s|
    ensures MatchAt(s[a..b], i - a, j - a) <==> MatchAt(s, i, j)
  {
    var p := i + |Phrase|;
    if p + |Extension| <= j {
      SliceOfSlice(s, a, b, i - a, p - a);
      SliceOfSlice(s, a, b, p - a, j - a - |Extension|);
      SliceOfSlice(s, a, b, j - a - |Extension|, j - a);
    }
  }

  /** A slice of a slice is a slice of the original string. */
  lemma SliceOfSlice(s: string, a: int, b: int, x: int, y: int)
    requires 0 <= a <= b <= |s| && 0 <= x <= y <= b - a
    ensures s[a..b][x..y] == s[a + x..a + y]
  {
    assert |s[a..b][x..y]| == |s[a + x..a + y]|;
    forall k | 0 <= k < y - x
      ensures s[a..b][x..y][k] == s[a + x..a + y][k]
    {
      assert s[a..b][x..y][k] == s[a..b][x + k];
    }
  }

  /** Every match lies between the strippable prefix and suffix, as long as
      the first character of the phrase and the last of ".mp4" are not
      strippable. */
  lemma MatchWithinTrim(s: string, t: string, ws: char -> bool, a: int, b: int, i: int, j: int)
    requires TrimmedAt(s, t, ws, a, b)
    requires !ws(Phrase[0]) && !ws(Extension[|Extension| - 1])
    requires MatchAt(s, i, j)
    ensures a <= i && j <= b
  {
    assert s[i] == s[i..i + |Phrase|][0];
    assert s[j - 1] == s[j - |Extension|..j][|Extension| - 1];
  }

  /** If every match of `s` starts at or after `lo` and either ends by `hi`
      or starts at or after `hi`, and the window `s[lo..hi]` has a match,
      then the window's reported match is the reported match of `s`. */
  lemma ExtractPathOfLeadingWindow(s: string, lo: int, hi: int)
    requires 0 <= lo <= hi <= |s|
    requires forall i, j :: MatchAt(s, i, j) ==> lo <= i && (j <= hi || hi <= i)
    requires HasMatch(s[lo..hi])
    ensures ExtractPath(s[lo..hi]) == ExtractPath(s)
  {
    var w := s[lo..hi];
    var i, j := LeftmostShortest(w);
    LeadingWindowSelected(s, lo, hi, i, j);
    SliceOfSlice(s, lo, hi, i + |Phrase|, j);
    SamePath(w, i, j, s, i + lo, j + lo);
  }

  /** Two strings whose reported matches capture the same text yield the
      same path. */
  lemma SamePath(s1: string, i1: int, j1: int, s2: string, i2: int, j2: int)
    requires Selected(s1, i1, j1) && Selected(s2, i2, j2)
    requires s1[i1 + |Phrase|..j1] == s2[i2 + |Phrase|..j2]
    ensures ExtractPath(s1) == ExtractPath(s2)
  {
    SelectedGivesPath(s1, i1, j1);
    SelectedGivesPath(s2, i2, j2);
  }

  /** Helper of `ExtractPathOfLeadingWindow`: the window's reported match,
      shifted by `lo`, is the reported match of `s`. */
  lemma LeadingWindowSelected(s: string, lo: int, hi: int, i: int, j: int)
    requires 0 <= lo <= hi <= |s|
    requires forall i', j' :: MatchAt(s, i', j') ==> lo <= i' && (j' <= hi || hi <= i')
    requires Selected(s[lo..hi], i, j)
    ensures Selected(s, i + lo, j + lo)
  {
    MatchInSlice(s, lo, hi, i + lo, j + lo);
    forall i', j' | MatchAt(s, i', j')
      ensures i + lo <= i'
    {
      if j' <= hi {
        MatchInSlice(s, lo, hi, i', j');
      }
    }
    var i0 := i + lo;
    forall j' | MatchAt(s, i0, j')
      ensures j + lo <= j'
    {
      MatchInSlice(s, lo, hi, i0, j');
    }
  }

  /** If every match of `s` lies inside `s[lo..hi]`, matching the window
      reports the same path as matching `s`. */
  lemma ExtractPathOfWindow(s: string, lo: int, hi: int)
    requires 0 <= lo <= hi <= |s|
    requires forall i, j :: MatchAt(s, i, j) ==> lo <= i && j <= hi
    ensures ExtractPath(s[lo..hi]) == ExtractPath(s)
  {
    if HasMatch(s[lo..hi]) {
      ExtractPathOfLeadingWindow(s, lo, hi);
    } else if HasMatch(s) {
      var i, j :| MatchAt(s, i, j);
      MatchInSlice(s, lo, hi, i, j);
    }
  }

  /** Trimming the output before matching never changes the extracted path:
      the phrase starts, and ".mp4" ends, with a character `trim` keeps. */
  lemma ExtractPathIgnoresTrim(s: string, ws: char -> bool)
    requires !ws(Phrase[0]) && !ws(Extension[|Extension| - 1])
    ensures ExtractPath(Trim(s, ws)) == ExtractPath(s)
  {
    var t := Trim(s, ws);
    var a, b :| TrimmedAt(s, t, ws, a, b);
    forall i, j | MatchAt(s, i, j)
      ensures a <= i && j <= b
    {
      MatchWithinTrim(s, t, ws, a, b, i, j);
    }
    ExtractPathOfWindow(s, a, b);
  }

  lemma PhraseOnOneLine()
    ensures NoLineTerminator(Phrase)
  {
  }

  /** A match never spans a line terminator. */
  lemma MatchOnOneLine(s: string, i: int, j: int)
    requires MatchAt(s, i, j)
    ensures NoLineTerminator(s[i..j])
  {
    var p := i + |Phrase|;
    CaptureShape(s, p, j);
    PhraseOnOneLine();
    forall k | 0 <= k < j - i
      ensures !IsLineTerminator(s[i..j][k])
    {
      if k < |Phrase| {
        assert s[i..j][k] == s[i..p][k];
      } else {
        assert s[i..j][k] == s[p..j][k - |Phrase|];
      }
    }
  }

  /** A match lies entirely before or entirely after a line terminator. */
  lemma MatchesAvoidLineTerminator(s: string, n: int)
    requires 0 <= n < |s| && IsLineTerminator(s[n])
    ensures forall i, j :: MatchAt(s, i, j) ==> j <= n || n < i
  {
    forall i, j | MatchAt(s, i, j)
      ensures j <= n || n < i
    {
      MatchOnOneLine(s, i, j);
    }
  }

  /** When the text before a line terminator has no match, every match
      lies after it. */
  lemma MatchesAfterLineTerminator(s: string, n: int)
    requires 0 <= n < |s| && IsLineTerminator(s[n])
    requires !HasMatch(s[0..n])
    ensures forall i, j :: MatchAt(s, i, j) ==> n + 1 <= i && j <= |s|
  {
    MatchesAvoidLineTerminator(s, n);
    forall i, j | MatchAt(s, i, j)
      ensures n + 1 <= i
    {
      if j <= n {
        MatchInSlice(s, 0, n, i, j);
      }
    }
  }

  /** Line by line: split the output at any line terminator. The path is
      taken from the text before it when that text has a match, and
      otherwise from the text after it. So the reported path comes from the
      first line on which the phrase is followed by ".mp4", even when an
      earlier line holds the phrase alone. */
  lemma ExtractPathFirstLine(a: string, c: char, b: string)
    requires IsLineTerminator(c)
    ensures ExtractPath(a + [c] + b) == if HasMatch(a) then ExtractPath(a) else ExtractPath(b)
  {
    SplitAround(a, c, b);
    ExtractPathAtLineTerminator(a + [c] + b, |a|);
  }

  /** The three parts of `a + [c] + b`, recovered by slicing. */
  lemma SplitAround(a: string, c: char, b: string)
    ensures (a + [c] + b)[0..|a|] == a
    ensures (a + [c] + b)[|a|] == c
    ensures (a + [c] + b)[|a| + 1..|a + [c] + b|] == b
  {
  }

  /** Helper of `ExtractPathFirstLine`, for the line terminator `s[n]`. */
  lemma ExtractPathAtLineTerminator(s: string, n: int)
    requires 0 <= n < |s| && IsLineTerminator(s[n])
    ensures ExtractPath(s) == if HasMatch(s[0..n]) then ExtractPath(s[0..n]) else ExtractPath(s[n + 1..|s|])
  {
    if HasMatch(s[0..n]) {
      MatchesAvoidLineTerminator(s, n);
      ExtractPathOfLeadingWindow(s, 0, n);
    } else {
      MatchesAfterLineTerminator(s, n);
      ExtractPathOfWindow(s, n + 1, |s|);
    }
  }
}
