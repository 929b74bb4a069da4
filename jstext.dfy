/** JavaScript strings as the form sees them: sequences of UTF-16 code units, where
    `s.length` counts code units, and `String.prototype.trim`, which strips leading and
    trailing white space and line terminators. */
module JsText {

  /** A UTF-16 code unit. */
  type CodeUnit = c: int | 0 <= c < 0x1_0000

  type JsString = seq<CodeUnit>

  /** The code units `trim` strips: the ECMAScript WhiteSpace set (tab, vertical tab, form
      feed, the byte order mark and every space separator of Unicode category Zs) and the
      LineTerminator set (line feed, carriage return, line and paragraph separator). */
  const WhitespaceUnits: set<CodeUnit> :=
    {0x09, 0x0B, 0x0C, 0xFEFF, 0x20, 0xA0, 0x1680, 0x2000, 0x2001, 0x2002, 0x2003, 0x2004,
     0x2005, 0x2006, 0x2007, 0x2008, 0x2009, 0x200A, 0x202F, 0x205F, 0x3000,
     0x0A, 0x0D, 0x2028, 0x2029}

  predicate IsWhitespace(c: CodeUnit) {
    c in WhitespaceUnits
  }

  /** Every code unit of `s` from index `lo` up to (not including) `hi` is white space. */
  predicate WhitespaceBetween(s: JsString, lo: int, hi: int)
    requires 0 <= lo <= hi <= |s|
  {
    forall k :: lo <= k < hi ==> IsWhitespace(s[k])
  }

  /** The index of the first code unit at or after `i` that is not white space (or `|s|`). */
  function SkipLeading(s: JsString, i: nat): (j: nat)
    requires i <= |s|
    ensures i <= j <= |s|
    ensures WhitespaceBetween(s, i, j)
    ensures j < |s| ==> !IsWhitespace(s[j])
    decreases |s| - i
  {
    if i < |s| && IsWhitespace(s[i]) then SkipLeading(s, i + 1) else i
  }

  /** The index just after the last code unit before `j`, and not before `lo`, that is not
      white space (or `lo`). */
  function SkipTrailing(s: JsString, lo: nat, j: nat): (e: nat)
    requires lo <= j <= |s|
    ensures lo <= e <= j
    ensures WhitespaceBetween(s, e, j)
    ensures lo < e ==> !IsWhitespace(s[e - 1])
    decreases j
  {
    if lo < j && IsWhitespace(s[j - 1]) then SkipTrailing(s, lo, j - 1) else j
  }

  /** Where `trim` starts cutting: the length of the leading white space. */
  function TrimStartIndex(s: JsString): (start: nat)
    ensures start <= |s|
  {
    SkipLeading(s, 0)
  }

  /** `s.trim()`: the part of `s` between its leading and its trailing white space. Only
      white space is cut off on either side; the result is empty exactly when `s` is all
      white space, and otherwise starts and ends with a code unit that is not white space. */
  function Trim(s: JsString): (r: JsString)
    ensures |r| <= |s|
    ensures var start := TrimStartIndex(s);
      && start + |r| <= |s|
      && r == s[start..start + |r|]
      && WhitespaceBetween(s, 0, start)
      && WhitespaceBetween(s, start + |r|, |s|)
    ensures r == [] <==> WhitespaceBetween(s, 0, |s|)
    ensures r != [] ==> !IsWhitespace(r[0]) && !IsWhitespace(r[|r| - 1])
  {
    var start := SkipLeading(s, 0);
    var end := SkipTrailing(s, start, |s|);
    assert start == end ==> WhitespaceBetween(s, 0, |s|) by {
      if start == end {
        forall k | 0 <= k < |s| ensures IsWhitespace(s[k]) {
          if k < start { } else { }
        }
      }
    }
    s[start..end]
  }

  /** Trimming a trimmed string changes nothing. */
  lemma TrimIdempotent(s: JsString)
    ensures Trim(Trim(s)) == Trim(s)
  {
    var r := Trim(s);
    if r != [] {
      assert SkipLeading(r, 0) == 0;
      assert SkipTrailing(r, 0, |r|) == |r|;
      assert r[0..|r|] == r;
    }
  }
}
