/**
 * The ECMAScript string built-ins the helpers rely on: `String.prototype.trim`,
 * the regular-expression class `\s`, and `String.prototype.toLowerCase`
 * (restricted to ASCII letters).
 */
module Text {

  /** WhiteSpace and LineTerminator code points: the set `trim` strips and `\s` matches. */
  predicate IsWhitespace(c: char) {
    c == '\t' || c == '\n' || c == '\U{000B}' || c == '\U{000C}' || c == '\r' || c == ' '
    || c == '\U{00A0}' || c == '\U{1680}' || ('\U{2000}' <= c <= '\U{200A}')
    || c == '\U{2028}' || c == '\U{2029}' || c == '\U{202F}' || c == '\U{205F}'
    || c == '\U{3000}' || c == '\U{FEFF}'
  }

  predicate AllWhitespace(s: string) {
    forall i :: 0 <= i < |s| ==> IsWhitespace(s[i])
  }

  predicate NoWhitespace(s: string) {
    forall i :: 0 <= i < |s| ==> !IsWhitespace(s[i])
  }

  /** Number of whitespace characters at the front of `s`. */
  function LeadingWhitespace(s: string): (k: nat)
    ensures k <= |s|
    ensures forall i :: 0 <= i < k ==> IsWhitespace(s[i])
    ensures k < |s| ==> !IsWhitespace(s[k])
  {
    if |s| > 0 && IsWhitespace(s[0]) then
      var k' := LeadingWhitespace(s[1..]);
      assert forall i :: 1 <= i < k' + 1 ==> s[i] == s[1..][i - 1];
      k' + 1
    else
      0
  }

  /** Index at which the trailing run of whitespace of `s` begins. */
  function TrailingStart(s: string): (k: nat)
    ensures k <= |s|
    ensures forall i :: k <= i < |s| ==> IsWhitespace(s[i])
    ensures k > 0 ==> !IsWhitespace(s[k - 1])
  {
    if |s| > 0 && IsWhitespace(s[|s| - 1]) then TrailingStart(s[..|s| - 1]) else |s|
  }

  /**
   * `s[i..j]` is what remains of `s` once whitespace is removed from both ends:
   * everything outside the slice is whitespace and the slice, when non-empty,
   * neither starts nor ends with whitespace.
   */
  ghost predicate IsTrimSlice(s: string, i: int, j: int) {
    0 <= i <= j <= |s|
    && (forall k :: 0 <= k < i ==> IsWhitespace(s[k]))
    && (forall k :: j <= k < |s| ==> IsWhitespace(s[k]))
    && (i < j ==> !IsWhitespace(s[i]) && !IsWhitespace(s[j - 1]))
  }

  /** Reference definition of trimming. */
  ghost predicate IsTrimOf(s: string, r: string) {
    exists i, j :: IsTrimSlice(s, i, j) && r == s[i..j]
  }

  /** `String.prototype.trim`. */
  function Trim(s: string): (r: string)
    ensures |r| <= |s|
    ensures r == [] <==> AllWhitespace(s)
  {
    var i := LeadingWhitespace(s);
    if i == |s| then [] else s[i..TrailingStart(s)]
  }

  /** `Trim` meets the reference definition. */
  lemma TrimIsTrimOf(s: string)
    ensures IsTrimOf(s, Trim(s))
  {
    var i := LeadingWhitespace(s);
    if i == |s| {
      assert IsTrimSlice(s, i, i) && s[i..i] == [];
    } else {
      assert IsTrimSlice(s, i, TrailingStart(s));
    }
  }

  /** A non-empty trim slice is pinned down by the first and last non-whitespace characters. */
  lemma TrimSliceBounds(s: string, i: int, j: int)
    requires IsTrimSlice(s, i, j) && i < j
    ensures i == LeadingWhitespace(s) && j == TrailingStart(s)
  {
  }

  /** Any string meeting the reference definition is the one `Trim` returns. */
  lemma TrimOfIsUnique(s: string, r: string)
    requires IsTrimOf(s, r)
    ensures r == Trim(s)
  {
    var i, j :| IsTrimSlice(s, i, j) && r == s[i..j];
    if i < j {
      TrimSliceBounds(s, i, j);
    } else {
      assert AllWhitespace(s);
    }
  }

  lemma TrimIdempotent(s: string)
    ensures Trim(Trim(s)) == Trim(s)
  {
    var t := Trim(s);
    assert IsTrimSlice(t, 0, |t|) && t[0..|t|] == t;
    TrimOfIsUnique(t, t);
  }

  /** A string with no whitespace at either end is its own trim. */
  lemma TrimOfTrimmed(s: string)
    requires s != [] ==> !IsWhitespace(s[0]) && !IsWhitespace(s[|s| - 1])
    ensures Trim(s) == s
  {
    assert IsTrimSlice(s, 0, |s|) && s[0..|s|] == s;
    TrimOfIsUnique(s, s);
  }

  /** The ASCII part of `toLowerCase`: 'A'..'Z' map to 'a'..'z', every other character is kept. */
  function LowerChar(c: char): (d: char)
    ensures 'A' <= c <= 'Z' ==> d as int == c as int + 32
    ensures !('A' <= c <= 'Z') ==> d == c
  {
    if 'A' <= c <= 'Z' then (c as int + 32) as char else c
  }

  function ToLower(s: string): (r: string)
    ensures |r| == |s|
    ensures forall i :: 0 <= i < |s| ==> r[i] == LowerChar(s[i])
  {
    seq(|s|, i requires 0 <= i < |s| => LowerChar(s[i]))
  }

  predicate NoUpperAscii(s: string) {
    forall i :: 0 <= i < |s| ==> !('A' <= s[i] <= 'Z')
  }

  lemma ToLowerLowers(s: string)
    ensures NoUpperAscii(ToLower(s))
    ensures ToLower(ToLower(s)) == ToLower(s)
  {
  }

  lemma LowerKeepsWhitespace(c: char)
    ensures IsWhitespace(LowerChar(c)) <==> IsWhitespace(c)
  {
  }

  lemma ToLowerSlice(s: string, i: int, j: int)
    requires 0 <= i <= j <= |s|
    ensures ToLower(s[i..j]) == ToLower(s)[i..j]
  {
  }

  /** Lower-casing never turns whitespace into non-whitespace or back, so it commutes with trimming. */
  lemma TrimToLowerCommute(s: string)
    ensures Trim(ToLower(s)) == ToLower(Trim(s))
  {
    var t := Trim(s);
    var l := ToLower(s);
    TrimIsTrimOf(s);
    var i, j :| IsTrimSlice(s, i, j) && t == s[i..j];
    assert forall k :: 0 <= k < |s| ==> (IsWhitespace(l[k]) <==> IsWhitespace(s[k])) by {
      forall k | 0 <= k < |s| ensures IsWhitespace(l[k]) <==> IsWhitespace(s[k]) {
        LowerKeepsWhitespace(s[k]);
      }
    }
    assert IsTrimSlice(l, i, j);
    ToLowerSlice(s, i, j);
    TrimOfIsUnique(l, ToLower(t));
  }
}
