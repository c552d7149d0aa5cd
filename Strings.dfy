/** Python's `str.strip()` with no argument, as used on the `alt` attribute. */
module Strings {

  /** The characters for which Python's `str.isspace()` holds. */
  predicate IsSpace(c: char) {
    c == ' ' || ('\t' <= c <= '\r') || ('\U{1C}' <= c <= '\U{1F}')
    || c == '\U{85}' || c == '\U{A0}' || c == '\U{1680}'
    || ('\U{2000}' <= c <= '\U{200A}') || c == '\U{2028}' || c == '\U{2029}'
    || c == '\U{202F}' || c == '\U{205F}' || c == '\U{3000}'
  }

  /** The index of the first character at or after `i` that is not white space, or `|s|`. */
  function SkipSpaces(s: string, i: nat): (n: nat)
    requires i <= |s|
    ensures i <= n <= |s|
    ensures forall k :: i <= k < n ==> IsSpace(s[k])
    ensures n < |s| ==> !IsSpace(s[n])
    decreases |s| - i
  {
    if i < |s| && IsSpace(s[i]) then SkipSpaces(s, i + 1) else i
  }

  /** The end of `s[..j]` once the white space at its end is cut off. */
  function TrimSpaces(s: string, j: nat): (n: nat)
    requires j <= |s|
    ensures n <= j
    ensures forall k :: n <= k < j ==> IsSpace(s[k])
    ensures 0 < n ==> !IsSpace(s[n - 1])
  {
    if 0 < j && IsSpace(s[j - 1]) then TrimSpaces(s, j - 1) else j
  }

  /** `r` is the slice of `s` starting at `a` once all white space is cut from both ends. */
  predicate StripsTo(s: string, a: nat, r: string) {
    a + |r| <= |s| && r == s[a..a + |r|]
    && (forall k :: 0 <= k < a ==> IsSpace(s[k]))
    && (forall k :: a + |r| <= k < |s| ==> IsSpace(s[k]))
    && (r == [] || (!IsSpace(r[0]) && !IsSpace(r[|r| - 1])))
  }

  /** `s.strip()`: the white space is skipped from the left, then trimmed from the right. */
  function Strip(s: string): (r: string)
    ensures exists a :: StripsTo(s, a, r)
    ensures r == [] <==> forall k :: 0 <= k < |s| ==> IsSpace(s[k])
  {
    var a := SkipSpaces(s, 0);
    var b := TrimSpaces(s, |s|);
    if a < b then
      assert StripsTo(s, a, s[a..b]);
      s[a..b]
    else
      assert a == |s|;
      assert StripsTo(s, a, []);
      []
  }
}
