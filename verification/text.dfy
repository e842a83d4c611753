/** String primitives the server relies on: `String.prototype.trim`,
    `slice(0, end)`, `toUpperCase` and the alphabet of `nanoid`. Strings are
    sequences of Unicode scalar values. */
module Text {

  /** The characters `trim` removes: ECMAScript WhiteSpace (tab, vertical tab,
      form feed, space, no-break space, byte-order mark and the Unicode space
      separators) and LineTerminator (LF, CR, LS, PS). */
  predicate IsJsWhitespace(c: char) {
    || c == '\t' || c == '\n' || c == '\U{000B}' || c == '\U{000C}' || c == '\r'
    || c == ' ' || c == '\U{00A0}' || c == '\U{1680}'
    || ('\U{2000}' <= c <= '\U{200A}')
    || c == '\U{2028}' || c == '\U{2029}' || c == '\U{202F}' || c == '\U{205F}'
    || c == '\U{3000}' || c == '\U{FEFF}'
  }

  /** `s[i..j]` is what remains of `s` once whitespace is stripped from both
      ends: everything outside it is whitespace and it neither starts nor ends
      with whitespace. */
  ghost predicate TrimSplit(s: string, i: int, j: int) {
    && 0 <= i <= j <= |s|
    && (forall k :: 0 <= k < i ==> IsJsWhitespace(s[k]))
    && (forall k :: j <= k < |s| ==> IsJsWhitespace(s[k]))
    && (i < j ==> !IsJsWhitespace(s[i]) && !IsJsWhitespace(s[j - 1]))
  }

  /** The first index at or after `from` that does not hold whitespace, or
      the length of `s`. */
  function SkipLeading(s: string, from: nat): (i: nat)
    requires from <= |s|
    ensures from <= i <= |s|
    ensures forall k :: from <= k < i ==> IsJsWhitespace(s[k])
    ensures i < |s| ==> !IsJsWhitespace(s[i])
    decreases |s| - from
  {
    if from < |s| && IsJsWhitespace(s[from]) then SkipLeading(s, from + 1) else from
  }

  /** The end of `s[lo..hi]` once its trailing whitespace is dropped. */
  function SkipTrailing(s: string, lo: nat, hi: nat): (j: nat)
    requires lo <= hi <= |s|
    ensures lo <= j <= hi
    ensures forall k :: j <= k < hi ==> IsJsWhitespace(s[k])
    ensures lo < j ==> !IsJsWhitespace(s[j - 1])
    decreases hi
  {
    if lo < hi && IsJsWhitespace(s[hi - 1]) then SkipTrailing(s, lo, hi - 1) else hi
  }

  /** Where the trimmed string starts. */
  function TrimStart(s: string): nat {
    SkipLeading(s, 0)
  }

  /** `s.trim()`. */
  function Trim(s: string): (r: string)
    ensures TrimSplit(s, TrimStart(s), TrimStart(s) + |r|)
    ensures r == s[TrimStart(s)..TrimStart(s) + |r|]
  {
    var i := SkipLeading(s, 0);
    s[i..SkipTrailing(s, i, |s|)]
  }

  /** Trimming is determined by the split alone: any way of cutting `s` into
      whitespace, a core without outer whitespace, and whitespace yields
      exactly `Trim(s)`. */
  lemma {:induction false} TrimUnique(s: string, i: int, j: int)
    requires TrimSplit(s, i, j)
    ensures Trim(s) == s[i..j]
  {
    if i < j {
      LeadingIs(s, 0, i);
      TrailingIs(s, i, |s|, j);
    } else {
      LeadingIs(s, 0, |s|);
      TrailingIs(s, |s|, |s|, |s|);
    }
  }

  /** The leading whitespace ends at the first character that is not
      whitespace. */
  lemma {:induction false} LeadingIs(s: string, from: nat, i: nat)
    requires from <= i <= |s|
    requires forall k :: from <= k < i ==> IsJsWhitespace(s[k])
    requires i < |s| ==> !IsJsWhitespace(s[i])
    ensures SkipLeading(s, from) == i
    decreases i - from
  {
    if from < i {
      LeadingIs(s, from + 1, i);
    }
  }

  /** The trailing whitespace starts after the last character that is not
      whitespace. */
  lemma {:induction false} TrailingIs(s: string, lo: nat, hi: nat, j: nat)
    requires lo <= j <= hi <= |s|
    requires forall k :: j <= k < hi ==> IsJsWhitespace(s[k])
    requires lo < j ==> !IsJsWhitespace(s[j - 1])
    ensures SkipTrailing(s, lo, hi) == j
    decreases hi - j
  {
    if j < hi {
      TrailingIs(s, lo, hi - 1, j);
    }
  }

  /** Trimming twice is trimming once. */
  lemma TrimIdempotent(s: string)
    ensures Trim(Trim(s)) == Trim(s)
  {
    var r := Trim(s);
    TrimUnique(r, 0, |r|);
    assert r[0..|r|] == r;
  }

  /** `s.slice(0, end)` for an integral `end`: a negative end counts from the
      back of the string, an end past the string stops at its length. */
  function SliceTo(s: string, end: int): (r: string)
    ensures r <= s
    ensures 0 <= end ==> |r| == if end < |s| then end else |s|
    ensures end < 0 ==> |r| == if |s| + end < 0 then 0 else |s| + end
  {
    var k := if end < 0 then (if |s| + end < 0 then 0 else |s| + end)
             else if end < |s| then end else |s|;
    s[..k]
  }

  /** The upper-case image of one character: ASCII letters only. */
  function UpperChar(c: char): char {
    if 'a' <= c <= 'z' then (c as int - 32) as char else c
  }

  predicate IsAsciiLower(c: char) {
    'a' <= c <= 'z'
  }

  /** `s.toUpperCase()`, restricted to the ASCII letters. */
  function Upper(s: string): (r: string)
    ensures |r| == |s|
    ensures forall i :: 0 <= i < |s| ==> r[i] == UpperChar(s[i])
    ensures forall i :: 0 <= i < |r| ==> !IsAsciiLower(r[i])
  {
    if s == [] then [] else [UpperChar(s[0])] + Upper(s[1..])
  }

  /** Upper-casing is idempotent, so an id that has been normalised once is
      left alone by a second normalisation. */
  lemma UpperIdempotent(s: string)
    ensures Upper(Upper(s)) == Upper(s)
  {
  }

  /** A character `nanoid` may produce: A-Z, a-z, 0-9, `_` and `-`. */
  predicate IsNanoidChar(c: char) {
    ('A' <= c <= 'Z') || ('a' <= c <= 'z') || ('0' <= c <= '9') || c == '_' || c == '-'
  }

  /** A possible result of `nanoid(size)`. */
  predicate IsNanoid(s: string, size: nat) {
    |s| == size && forall i :: 0 <= i < |s| ==> IsNanoidChar(s[i])
  }

  /** A character of an upper-cased `nanoid`: A-Z, 0-9, `_` and `-`. */
  predicate IsShareIdChar(c: char) {
    ('A' <= c <= 'Z') || ('0' <= c <= '9') || c == '_' || c == '-'
  }
}
