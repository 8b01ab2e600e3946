/** The pieces of ECMAScript string semantics the batch handler relies on:
    line terminators (what a regular expression's `.` refuses to match) and
    `String.prototype.trim`, which strips white space and line terminators
    from both ends of a string.

    Trimming is defined over an arbitrary "strippable character" predicate
    `ws`, so that its properties hold whatever character set is used; the
    ECMAScript set is `IsTrimmable`. */
module JsString {

  /** ECMAScript LineTerminator: LF, CR, LINE SEPARATOR, PARAGRAPH SEPARATOR. */
  predicate IsLineTerminator(c: char) {
    c == '\n' || c == '\r' || c == '\U{2028}' || c == '\U{2029}'
  }

  /** ECMAScript WhiteSpace: TAB, VT, FF, ZWNBSP and every code point of the
      Unicode category Zs (SPACE, NO-BREAK SPACE, OGHAM SPACE MARK,
      EN QUAD .. HAIR SPACE, NARROW NO-BREAK SPACE, MEDIUM MATHEMATICAL SPACE,
      IDEOGRAPHIC SPACE). */
  predicate IsWhiteSpace(c: char) {
    || c == '\t' || c == '\U{000B}' || c == '\U{000C}' || c == '\U{FEFF}'
    || c == ' ' || c == '\U{00A0}' || c == '\U{1680}'
    || ('\U{2000}' <= c <= '\U{200A}')
    || c == '\U{202F}' || c == '\U{205F}' || c == '\U{3000}'
  }

  /** The characters `String.prototype.trim` removes. */
  predicate IsTrimmable(c: char) {
    IsWhiteSpace(c) || IsLineTerminator(c)
  }

  predicate AllSatisfy(t: string, p: char -> bool) {
    forall k :: 0 <= k < |t| ==> p(t[k])
  }

  /** `r` is `s[a..b]`, everything outside `[a, b)` is strippable, and `r`
      neither starts nor ends with a strippable character. */
  predicate TrimmedAt(s: string, r: string, ws: char -> bool, a: int, b: int) {
    && 0 <= a <= b <= |s|
    && r == s[a..b]
    && AllSatisfy(s[..a], ws)
    && AllSatisfy(s[b..], ws)
    && (r == [] || (!ws(r[0]) && !ws(r[|r| - 1])))
  }

  /** Declarative meaning of trimming: `r` is what is left of `s` once the
      strippable characters at both ends are removed. */
  ghost predicate IsTrimOf(s: string, r: string, ws: char -> bool) {
    exists a, b :: TrimmedAt(s, r, ws, a, b)
  }

  /** Number of strippable characters at the start of `s`. */
  function LeadingLength(s: string, ws: char -> bool): (n: nat)
    ensures n <= |s|
    ensures forall k :: 0 <= k < n ==> ws(s[k])
    ensures n < |s| ==> !ws(s[n])
    decreases |s|
  {
    if |s| > 0 && ws(s[0]) then 1 + LeadingLength(s[1..], ws) else 0
  }

  /** Number of strippable characters at the end of `s`. */
  function TrailingLength(s: string, ws: char -> bool): (n: nat)
    ensures n <= |s|
    ensures forall k :: |s| - n <= k < |s| ==> ws(s[k])
    ensures n < |s| ==> !ws(s[|s| - n - 1])
    decreases |s|
  {
    if |s| > 0 && ws(s[|s| - 1]) then 1 + TrailingLength(s[..|s| - 1], ws) else 0
  }

  /** `String.prototype.trim` with the strippable set `ws`: drop the
      strippable prefix, then the strippable suffix of what remains. */
  function Trim(s: string, ws: char -> bool): (r: string)
    ensures IsTrimOf(s, r, ws)
  {
    var a := LeadingLength(s, ws);
    var b := |s| - TrailingLength(s[a..], ws);
    assert TrimmedAt(s, s[a..b], ws, a, b);
    s[a..b]
  }

  /** The trimmed string of `s` is unique: any two strings satisfying the
      declarative description coincide. */
  lemma TrimUnique(s: string, r1: string, r2: string, ws: char -> bool)
    requires IsTrimOf(s, r1, ws) && IsTrimOf(s, r2, ws)
    ensures r1 == r2
  {
    var a1, b1 :| TrimmedAt(s, r1, ws, a1, b1);
    var a2, b2 :| TrimmedAt(s, r2, ws, a2, b2);
    if r1 != [] && r2 != [] {
      TrimBoundsAgree(s, r1, r2, ws, a1, b1, a2, b2);
      TrimBoundsAgree(s, r2, r1, ws, a2, b2, a1, b1);
    }
  }

  /** Helper of `TrimUnique`: for two non-empty trims, the bounds of the
      second are no tighter than those of the first. */
  lemma TrimBoundsAgree(s: string, r1: string, r2: string, ws: char -> bool, a1: int, b1: int, a2: int, b2: int)
    requires TrimmedAt(s, r1, ws, a1, b1) && TrimmedAt(s, r2, ws, a2, b2)
    requires r1 != [] && r2 != []
    ensures a2 <= a1 && b1 <= b2
  {
    assert s[a1] == r1[0];
    assert s[b1 - 1] == r1[|r1| - 1];
  }

  /** `Trim` is exactly the declarative trim: both directions. */
  lemma TrimCharacterized(s: string, r: string, ws: char -> bool)
    ensures IsTrimOf(s, r, ws) <==> r == Trim(s, ws)
  {
  }

  /** Trimming twice is trimming once. */
  lemma TrimIdempotent(s: string, ws: char -> bool)
    ensures Trim(Trim(s, ws), ws) == Trim(s, ws)
  {
  }
}
