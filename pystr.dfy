/** The three Python `str` operations the bot relies on: `lower()`, `strip()`
    and the substring test `needle in haystack`. Strings are sequences of
    Unicode scalar values (Python's `str` may also hold lone surrogates, which
    this model cannot represent). */
module PyStr {

  /** The characters Python's `str.isspace` accepts; `str.strip()` with no
      argument removes exactly these from both ends. */
  predicate IsSpace(c: char) {
    ('\t' <= c <= '\r') || ('\U{1C}' <= c <= '\U{1F}') || c == ' ' ||
    c == '\U{85}' || c == '\U{A0}' || c == '\U{1680}' ||
    ('\U{2000}' <= c <= '\U{200A}') || c == '\U{2028}' || c == '\U{2029}' ||
    c == '\U{202F}' || c == '\U{205F}' || c == '\U{3000}'
  }

  /** Upper-case letters this model folds: ASCII, Latin-1 and the letters of
      Serbian Latin outside Latin-1 (Ć, Č, Đ, Š, Ž). */
  predicate IsUpper(c: char) {
    ('A' <= c <= 'Z') || ('\U{C0}' <= c <= '\U{DE}' && c != '\U{D7}') ||
    c == '\U{106}' || c == '\U{10C}' || c == '\U{110}' || c == '\U{160}' || c == '\U{17D}'
  }

  /** Python's `str.lower` on one code point, for the letters IsUpper covers. */
  function LowerChar(c: char): (r: char)
    ensures IsUpper(c) ==> r != c && !IsUpper(r)
    ensures !IsUpper(c) ==> r == c
  {
    if 'A' <= c <= 'Z' || ('\U{C0}' <= c <= '\U{DE}' && c != '\U{D7}') then
      (c as int + 32) as char
    else if IsUpper(c) then
      (c as int + 1) as char
    else
      c
  }

  /** Lower-casing never turns a non-space character into a space. */
  lemma {:induction false} LowerKeepsSpace(c: char)
    ensures IsSpace(LowerChar(c)) <==> IsSpace(c)
  {
  }

  /** `s.lower()`: folds every character on its own, so the length never changes. */
  function Lower(s: string): (r: string)
    ensures |r| == |s|
    ensures forall i {:trigger r[i]} :: 0 <= i < |s| ==> r[i] == LowerChar(s[i])
  {
    seq(|s|, i requires 0 <= i < |s| => LowerChar(s[i]))
  }

  /** Lower-casing twice is lower-casing once. */
  lemma LowerIdempotent(s: string)
    ensures Lower(Lower(s)) == Lower(s)
  {
  }

  /** `needle` occurs in `haystack` starting at position `i`. */
  ghost predicate OccursAt(needle: string, haystack: string, i: nat) {
    i + |needle| <= |haystack| && haystack[i..i + |needle|] == needle
  }

  /** `needle` is a prefix of `s`. */
  predicate IsPrefix(needle: string, s: string) {
    |needle| <= |s| && s[..|needle|] == needle
  }

  /** `needle` is a suffix of `s`. */
  predicate IsSuffix(needle: string, s: string) {
    |needle| <= |s| && s[|s| - |needle|..] == needle
  }

  /** Python's `needle in haystack` for two strings: a scan of the start positions. */
  function Contains(needle: string, haystack: string): (r: bool)
    ensures r ==> |needle| <= |haystack|
    ensures IsPrefix(needle, haystack) ==> r
    decreases |haystack|
  {
    if |haystack| < |needle| then false
    else IsPrefix(needle, haystack) || Contains(needle, haystack[1..])
  }

  /** The scan agrees with the definition of a substring: it succeeds exactly
      when the needle occurs at some position of the haystack. */
  lemma {:induction false} ContainsIffOccurs(needle: string, haystack: string)
    ensures Contains(needle, haystack) <==> exists i: nat :: OccursAt(needle, haystack, i)
    decreases |haystack|
  {
    if |haystack| < |needle| {
      forall i: nat ensures !OccursAt(needle, haystack, i) { }
    } else if IsPrefix(needle, haystack) {
      assert OccursAt(needle, haystack, 0);
    } else {
      ContainsIffOccurs(needle, haystack[1..]);
      if Contains(needle, haystack[1..]) {
        var i: nat :| OccursAt(needle, haystack[1..], i);
        assert haystack[1..][i..i + |needle|] == haystack[i + 1..i + 1 + |needle|];
        assert OccursAt(needle, haystack, i + 1);
      } else {
        forall i: nat | OccursAt(needle, haystack, i) ensures false {
          if i > 0 {
            assert haystack[1..][i - 1..i - 1 + |needle|] == haystack[i..i + |needle|];
            assert OccursAt(needle, haystack[1..], i - 1);
          }
        }
      }
    }
  }

  /** The empty string is in every string, as `"" in s` is always true. */
  lemma {:induction false} EmptyInEverything(s: string)
    ensures Contains("", s)
  {
    assert IsPrefix("", s);
  }

  /** Every string is in itself. */
  lemma {:induction false} ContainsItself(s: string)
    ensures Contains(s, s)
  {
    assert IsPrefix(s, s);
  }

  /** A needle longer than the haystack is never in it. */
  lemma {:induction false} LongerNeverContained(needle: string, haystack: string)
    requires |needle| > |haystack|
    ensures !Contains(needle, haystack)
  {
  }

  /** `s.lstrip()`: drops the leading whitespace and nothing else. */
  function TrimStart(s: string): (r: string)
    ensures |r| <= |s| && r == s[|s| - |r|..]
    ensures forall k :: 0 <= k < |s| - |r| ==> IsSpace(s[k])
    ensures r != [] ==> !IsSpace(r[0])
  {
    if s != [] && IsSpace(s[0]) then TrimStart(s[1..]) else s
  }

  /** `s.rstrip()`: drops the trailing whitespace and nothing else. */
  function TrimEnd(s: string): (r: string)
    ensures |r| <= |s| && r == s[..|r|]
    ensures forall k :: |r| <= k < |s| ==> IsSpace(s[k])
    ensures r != [] ==> !IsSpace(r[|r| - 1])
  {
    if s != [] && IsSpace(s[|s| - 1]) then TrimEnd(s[..|s| - 1]) else s
  }

  /** `r` is the slice of `s` at position `i`, and only whitespace lies
      before and after it. */
  ghost predicate SpaceMarginsAt(r: string, s: string, i: nat) {
    OccursAt(r, s, i) &&
    (forall k :: 0 <= k < i ==> IsSpace(s[k])) &&
    (forall k :: i + |r| <= k < |s| ==> IsSpace(s[k]))
  }

  /** Dropping a whitespace prefix and then a whitespace suffix leaves a
      slice with whitespace margins. */
  lemma {:induction false} MarginsCompose(s: string, t: string, r: string)
    requires |t| <= |s| && t == s[|s| - |t|..]
    requires |r| <= |t| && r == t[..|r|]
    requires forall k :: 0 <= k < |s| - |t| ==> IsSpace(s[k])
    requires forall k :: |r| <= k < |t| ==> IsSpace(t[k])
    ensures SpaceMarginsAt(r, s, |s| - |t|)
  {
    var i := |s| - |t|;
    assert s[i..i + |r|] == t[..|r|];
    forall k | i + |r| <= k < |s| ensures IsSpace(s[k]) {
      assert s[k] == t[k - i];
    }
  }

  /** `s.strip()`: the slice of `s` left after removing whitespace at both
      ends; it neither starts nor ends with whitespace. */
  function Strip(s: string): (r: string)
    ensures |r| <= |s|
    ensures r != [] ==> !IsSpace(r[0]) && !IsSpace(r[|r| - 1])
    ensures exists i: nat :: SpaceMarginsAt(r, s, i)
  {
    var t := TrimStart(s);
    var r := TrimEnd(t);
    MarginsCompose(s, t, r);
    r
  }

  /** A string that neither starts nor ends with whitespace strips to itself. */
  lemma {:induction false} StripUnpadded(s: string)
    requires s != [] && !IsSpace(s[0]) && !IsSpace(s[|s| - 1])
    ensures Strip(s) == s
  {
    assert TrimStart(s) == s;
    assert TrimEnd(s) == s;
  }

  /** Stripping twice is stripping once. */
  lemma {:induction false} StripIdempotent(s: string)
    ensures Strip(Strip(s)) == Strip(s)
  {
    var r := Strip(s);
    if r != [] {
      assert TrimStart(r) == r;
      assert TrimEnd(r) == r;
    }
  }

  /** A string of whitespace only strips to the empty string. */
  lemma {:induction false} StripAllSpace(s: string)
    requires forall k :: 0 <= k < |s| ==> IsSpace(s[k])
    ensures Strip(s) == ""
  {
  }
}
