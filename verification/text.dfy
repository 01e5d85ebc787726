/** The three Python string methods the inventory handler relies on:
    `str.strip()`, `str.isdigit()` and `str.upper()`. */
module Text {

  /** Python's whitespace (`str.isspace`): the ASCII controls 9-13 and
      28-31, space, and the Unicode separators. */
  predicate IsSpace(c: char) {
    || ('\U{9}' <= c <= '\U{D}')
    || ('\U{1C}' <= c <= '\U{20}')
    || c == '\U{85}' || c == '\U{A0}' || c == '\U{1680}'
    || ('\U{2000}' <= c <= '\U{200A}')
    || c == '\U{2028}' || c == '\U{2029}' || c == '\U{202F}' || c == '\U{205F}' || c == '\U{3000}'
  }

  /** Every character of `s` from `lo` up to `hi` is whitespace. */
  predicate SpaceBetween(s: string, lo: int, hi: int)
    requires 0 <= lo <= hi <= |s|
  {
    forall k :: lo <= k < hi ==> IsSpace(s[k])
  }

  function StripLeft(s: string): (r: string)
    ensures |r| <= |s| && r == s[|s| - |r|..]
    ensures SpaceBetween(s, 0, |s| - |r|)
    ensures |r| == 0 || !IsSpace(r[0])
  {
    if |s| == 0 || !IsSpace(s[0]) then s
    else
      var r := StripLeft(s[1..]);
      assert s[1..][|s| - 1 - |r|..] == s[|s| - |r|..];
      assert forall k :: 1 <= k < |s| - |r| ==> s[k] == s[1..][k - 1];
      r
  }

  function StripRight(s: string): (r: string)
    ensures |r| <= |s| && r == s[..|r|]
    ensures SpaceBetween(s, |r|, |s|)
    ensures |r| == 0 || !IsSpace(r[|r| - 1])
  {
    if |s| == 0 || !IsSpace(s[|s| - 1]) then s
    else
      var r := StripRight(s[..|s| - 1]);
      assert forall k :: |r| <= k < |s| - 1 ==> s[k] == s[..|s| - 1][k];
      r
  }

  /** The text `r` is `s` with only whitespace dropped at either end. */
  predicate TrimmedFrom(s: string, r: string) {
    exists i, j :: 0 <= i <= j <= |s| && r == s[i..j] && SpaceBetween(s, 0, i) && SpaceBetween(s, j, |s|)
  }

  /** `str.strip()`: the stretch of `s` left after dropping whitespace at
      both ends; it starts and ends with a non-space character. */
  function Strip(s: string): (r: string)
    ensures TrimmedFrom(s, r)
    ensures |r| == 0 || (!IsSpace(r[0]) && !IsSpace(r[|r| - 1]))
  {
    StripSound(s);
    StripRight(StripLeft(s))
  }

  lemma StripSound(s: string)
    ensures TrimmedFrom(s, StripRight(StripLeft(s)))
    ensures var r := StripRight(StripLeft(s));
            |r| == 0 || (!IsSpace(r[0]) && !IsSpace(r[|r| - 1]))
  {
    var left := StripLeft(s);
    var r := StripRight(left);
    var i := |s| - |left|;
    TrailingSpace(s, left, r);
    Witness(s, r, i, i + |r|);
    if |r| > 0 {
      assert r[0] == left[0];
    }
  }

  lemma TrailingSpace(s: string, left: string, r: string)
    requires |left| <= |s| && left == s[|s| - |left|..]
    requires |r| <= |left| && r == left[..|r|] && SpaceBetween(left, |r|, |left|)
    ensures r == s[|s| - |left|..|s| - |left| + |r|]
    ensures SpaceBetween(s, |s| - |left| + |r|, |s|)
  {
    var i := |s| - |left|;
    forall k | i + |r| <= k < |s|
      ensures IsSpace(s[k])
    {
      assert s[k] == left[k - i];
    }
  }

  lemma Witness(s: string, r: string, i: int, j: int)
    requires 0 <= i <= j <= |s| && r == s[i..j] && SpaceBetween(s, 0, i) && SpaceBetween(s, j, |s|)
    ensures TrimmedFrom(s, r)
  {
  }

  /** Stripping a stripped string changes nothing. */
  lemma StripIdempotent(s: string)
    ensures Strip(Strip(s)) == Strip(s)
  {
    var r := Strip(s);
    if |r| > 0 {
      assert StripLeft(r) == r;
      assert StripRight(r) == r;
    }
  }

  predicate IsAsciiDigit(c: char) {
    '0' <= c <= '9'
  }

  /** `str.isdigit()` on ASCII text: the empty string is refused, and
      otherwise every character must be a digit. */
  function IsDigits(s: string): (r: bool)
    ensures |s| == 0 ==> !r
    ensures r <==> |s| > 0 && forall c :: c in s ==> IsAsciiDigit(c)
  {
    |s| > 0 && forall i :: 0 <= i < |s| ==> IsAsciiDigit(s[i])
  }

  function UpperChar(c: char): (r: char)
    ensures 'a' <= c <= 'z' ==> 'A' <= r <= 'Z' && r as int - c as int == 'A' as int - 'a' as int
    ensures !('a' <= c <= 'z') ==> r == c
  {
    if 'a' <= c <= 'z' then (c as int - 'a' as int + 'A' as int) as char else c
  }

  /** `str.upper()` on ASCII letters. */
  function Upper(s: string): (r: string)
    ensures |r| == |s|
    ensures forall i :: 0 <= i < |s| ==> r[i] == UpperChar(s[i])
  {
    seq(|s|, i requires 0 <= i < |s| => UpperChar(s[i]))
  }
}
