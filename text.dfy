/**
 * The string operations the task list relies on: `String.prototype.trim`
 * (used to reject and clean the text of a new task), `toLowerCase` and
 * `includes` (used by the case-insensitive search).
 */
module Text {

  /** ECMAScript WhiteSpace and LineTerminator code points: what `trim` strips. */
  predicate IsWhitespace(c: char)
  {
    || c == '\t' || c == '\n' || c == '\U{000B}' || c == '\U{000C}' || c == '\r'
    || c == ' ' || c == '\U{00A0}' || c == '\U{1680}'
    || ('\U{2000}' <= c <= '\U{200A}')
    || c == '\U{2028}' || c == '\U{2029}' || c == '\U{202F}' || c == '\U{205F}'
    || c == '\U{3000}' || c == '\U{FEFF}'
  }

  /** Every character of `s` is whitespace (this includes the empty string). */
  predicate IsBlank(s: string)
  {
    forall k :: 0 <= k < |s| ==> IsWhitespace(s[k])
  }

  /** Drops the leading whitespace. */
  function TrimStart(s: string): (r: string)
    ensures |r| <= |s| && r == s[|s| - |r|..]
    ensures forall k :: 0 <= k < |s| - |r| ==> IsWhitespace(s[k])
    ensures r == [] || !IsWhitespace(r[0])
  {
    if s != [] && IsWhitespace(s[0]) then TrimStart(s[1..]) else s
  }

  /** Drops the trailing whitespace. */
  function TrimEnd(s: string): (r: string)
    ensures |r| <= |s| && r == s[..|r|]
    ensures forall k :: |r| <= k < |s| ==> IsWhitespace(s[k])
    ensures r == [] || !IsWhitespace(r[|r| - 1])
  {
    if s != [] && IsWhitespace(s[|s| - 1]) then TrimEnd(s[..|s| - 1]) else s
  }

  /**
   * `r` sits in `s` at offset `i`, everything of `s` before and after it is
   * whitespace, and `r` neither starts nor ends with whitespace.
   */
  predicate IsTrimmedAt(s: string, r: string, i: nat)
  {
    && i + |r| <= |s|
    && r == s[i..i + |r|]
    && (forall k :: 0 <= k < i ==> IsWhitespace(s[k]))
    && (forall k :: i + |r| <= k < |s| ==> IsWhitespace(s[k]))
    && (r == [] || (!IsWhitespace(r[0]) && !IsWhitespace(r[|r| - 1])))
  }

  /**
   * Cutting leading whitespace down to `a` and then trailing whitespace
   * down to `r` leaves the shape `IsTrimmedAt` describes.
   */
  lemma TrimmedShape(s: string, a: string, r: string)
    requires |a| <= |s| && a == s[|s| - |a|..]
    requires forall k :: 0 <= k < |s| - |a| ==> IsWhitespace(s[k])
    requires a == [] || !IsWhitespace(a[0])
    requires |r| <= |a| && r == a[..|r|]
    requires forall k :: |r| <= k < |a| ==> IsWhitespace(a[k])
    requires r == [] || !IsWhitespace(r[|r| - 1])
    ensures IsTrimmedAt(s, r, |s| - |a|)
  {
    var i := |s| - |a|;
    forall k | i + |r| <= k < |s| ensures IsWhitespace(s[k]) {
      assert s[k] == a[k - i];
    }
    assert r != [] ==> r[0] == a[0];
  }

  /** Trimming both ends leaves the shape `IsTrimmedAt` describes. */
  lemma TrimBothEnds(s: string)
    ensures IsTrimmedAt(s, TrimEnd(TrimStart(s)), |s| - |TrimStart(s)|)
  {
    TrimmedShape(s, TrimStart(s), TrimEnd(TrimStart(s)));
  }

  /** `String.prototype.trim`. */
  function Trim(s: string): (r: string)
    ensures |r| <= |s|
    ensures exists i: nat :: IsTrimmedAt(s, r, i)
  {
    TrimBothEnds(s);
    TrimEnd(TrimStart(s))
  }

  /** Trim finds the empty string exactly when the input is blank. */
  lemma TrimEmptyIffBlank(s: string)
    ensures Trim(s) == [] <==> IsBlank(s)
  {
    var i: nat :| IsTrimmedAt(s, Trim(s), i);
    if Trim(s) != [] {
      assert !IsWhitespace(s[i]);
    }
  }

  /** The trimmed string is determined by the shape `IsTrimmedAt` describes. */
  lemma {:induction false} TrimmedAtIsTrim(s: string, r: string, i: nat)
    requires IsTrimmedAt(s, r, i)
    ensures r == Trim(s)
  {
    var t := Trim(s);
    var j: nat :| IsTrimmedAt(s, t, j);
    if r == [] {
      assert IsBlank(s);
      TrimEmptyIffBlank(s);
    } else if t == [] {
      TrimEmptyIffBlank(s);
      assert false;
    } else {
      // Both start at the first non-whitespace and end at the last one.
      assert !IsWhitespace(s[i]) && !IsWhitespace(s[j]);
      assert i == j;
      assert !IsWhitespace(s[i + |r| - 1]) && !IsWhitespace(s[j + |t| - 1]);
      assert |r| == |t|;
    }
  }

  /** Trimming twice is the same as trimming once. */
  lemma TrimIdempotent(s: string)
    ensures Trim(Trim(s)) == Trim(s)
  {
    var r := Trim(s);
    assert IsTrimmedAt(r, r, 0);
    TrimmedAtIsTrim(r, r, 0);
  }

  /** ASCII `toLowerCase` on one character. */
  function LowerChar(c: char): (d: char)
    ensures !('A' <= d <= 'Z')
    ensures 'A' <= c <= 'Z' ==> d as int == c as int + 32
    ensures !('A' <= c <= 'Z') ==> d == c
  {
    if 'A' <= c <= 'Z' then (c as int + 32) as char else c
  }

  /** `String.prototype.toLowerCase`, restricted to the ASCII letters. */
  function ToLower(s: string): (r: string)
    ensures |r| == |s|
    ensures forall k :: 0 <= k < |s| ==> r[k] == LowerChar(s[k])
  {
    if s == [] then [] else [LowerChar(s[0])] + ToLower(s[1..])
  }

  /** Lower-casing twice is the same as lower-casing once. */
  lemma ToLowerIdempotent(s: string)
    ensures ToLower(ToLower(s)) == ToLower(s)
  {
  }

  /** `sub` occurs in `s` starting at index `i`. */
  predicate OccursAt(s: string, sub: string, i: nat)
  {
    i + |sub| <= |s| && s[i..i + |sub|] == sub
  }

  /** `String.prototype.includes`: `sub` is a prefix of `s` or of one of its suffixes. */
  predicate Includes(s: string, sub: string): (b: bool)
    ensures b ==> |sub| <= |s|
  {
    (|sub| <= |s| && s[..|sub|] == sub) || (s != [] && Includes(s[1..], sub))
  }

  /** An occurrence in the tail is an occurrence one further on in `s`. */
  lemma OccursShift(s: string, sub: string, i: nat)
    requires s != [] && OccursAt(s[1..], sub, i)
    ensures OccursAt(s, sub, i + 1)
  {
    assert s[i + 1..i + 1 + |sub|] == s[1..][i..i + |sub|];
  }

  /** A prefix of `s` or of a suffix of `s` occurs somewhere in `s`. */
  lemma {:induction false} IncludesOccurs(s: string, sub: string)
    requires Includes(s, sub)
    ensures exists i: nat :: OccursAt(s, sub, i)
  {
    if |sub| <= |s| && s[..|sub|] == sub {
      assert OccursAt(s, sub, 0);
    } else {
      IncludesOccurs(s[1..], sub);
      var i: nat :| OccursAt(s[1..], sub, i);
      OccursShift(s, sub, i);
    }
  }

  /** An occurrence at index `i` is found by `Includes` after `i` steps. */
  lemma {:induction false} OccursIncludes(s: string, sub: string, i: nat)
    requires OccursAt(s, sub, i)
    ensures Includes(s, sub)
  {
    if i == 0 {
      assert s[..|sub|] == s[0..|sub|];
    } else {
      assert s[1..][i - 1..i - 1 + |sub|] == s[i..i + |sub|];
      OccursIncludes(s[1..], sub, i - 1);
    }
  }

  /** `Includes` holds exactly when `sub` occurs somewhere in `s`. */
  lemma IncludesIffOccurs(s: string, sub: string)
    ensures Includes(s, sub) <==> exists i: nat :: OccursAt(s, sub, i)
  {
    if Includes(s, sub) {
      IncludesOccurs(s, sub);
    }
    if i: nat :| OccursAt(s, sub, i) {
      OccursIncludes(s, sub, i);
    }
  }

  /** The empty search term is found in every string. */
  lemma IncludesEmpty(s: string)
    ensures Includes(s, [])
  {
  }
}
