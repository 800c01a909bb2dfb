/** The parts of java.lang.String and commons-lang StringUtils that the modelled code uses. */
module JavaStrings {
  import opened Wrappers

  /** `s.lastIndexOf(c)`: the index of the last occurrence of `c`, or -1. */
  function LastIndexOf(s: string, c: char): (r: int)
    ensures -1 <= r < |s|
    ensures r >= 0 ==> s[r] == c
    ensures forall k :: r < k < |s| ==> s[k] != c
  {
    if |s| == 0 then -1
    else if s[|s| - 1] == c then |s| - 1
    else LastIndexOf(s[..|s| - 1], c)
  }

  /** `s.indexOf(c)`: the index of the first occurrence of `c`, or -1. */
  function IndexOf(s: string, c: char): (r: int)
    ensures -1 <= r < |s|
    ensures r >= 0 ==> s[r] == c
    ensures forall k :: 0 <= k < |s| && (r < 0 || k < r) ==> s[k] != c
  {
    if |s| == 0 then -1
    else if s[0] == c then 0
    else var t := IndexOf(s[1..], c); if t < 0 then -1 else t + 1
  }

  predicate StartsWith(s: string, prefix: string) {
    |prefix| <= |s| && s[..|prefix|] == prefix
  }

  /** `s.substring(begin, end)`, which throws unless 0 <= begin <= end <= length. */
  function Substring(s: string, begin: int, end: int): (r: Result<string>)
    ensures r.Ok? <==> 0 <= begin <= end <= |s|
  {
    if 0 <= begin <= end <= |s| then Ok(s[begin..end]) else Err(IndexOutOfBounds)
  }

  /** `s.substring(begin)`, which throws unless 0 <= begin <= length. */
  function SubstringFrom(s: string, begin: int): (r: Result<string>)
    ensures r.Ok? <==> 0 <= begin <= |s|
  {
    if 0 <= begin <= |s| then Ok(s[begin..]) else Err(IndexOutOfBounds)
  }

  /**
   * `s.split("=")[0]` for a one-character separator: Java drops trailing empty
   * strings, so a non-empty string made only of separators splits into an empty
   * array and indexing it throws.
   */
  function SplitHead(s: string, sep: char): (r: Result<string>)
    ensures r.Err? <==> |s| > 0 && forall k :: 0 <= k < |s| ==> s[k] == sep
    ensures r.Ok? ==> StartsWith(s, r.value) && sep !in r.value
    ensures r.Ok? && |r.value| < |s| ==> s[|r.value|] == sep
  {
    var i := IndexOf(s, sep);
    if i < 0 then Ok(s)
    else if |s| > 0 && forall k :: 0 <= k < |s| ==> s[k] == sep then Err(IndexOutOfBounds)
    else Ok(s[..i])
  }

  /** Character.isWhitespace. */
  predicate IsWhitespace(c: char) {
    c == ' ' || c == '\t' || c == '\n' || c == '\U{000B}' || c == '\U{000C}' || c == '\r'
    || ('\U{001C}' <= c <= '\U{001F}')
    || c == '\U{1680}' || ('\U{2000}' <= c <= '\U{2006}') || ('\U{2008}' <= c <= '\U{200A}')
    || c == '\U{2028}' || c == '\U{2029}' || c == '\U{205F}' || c == '\U{3000}'
  }

  /** StringUtils.isBlank: null, empty or only whitespace. */
  predicate IsBlank(s: Option<string>) {
    s.None? || forall k :: 0 <= k < |s.value| ==> IsWhitespace(s.value[k])
  }

  /** String.toUpperCase, restricted to the ASCII letters. */
  function ToUpperCase(s: string): (r: string)
    ensures |r| == |s|
  {
    seq(|s|, k requires 0 <= k < |s| => if 'a' <= s[k] <= 'z' then (s[k] as int - 32) as char else s[k])
  }
}
