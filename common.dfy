/**
 * Values and string helpers shared by the backend model: Python's `None`,
 * truthiness, `str.strip()`, `str.lower()`,
 * `str.startswith()` and substring search.
 */
module Common {

  /** A nullable value: a JSON `null`, a missing key or an SQL NULL is `None`. */
  datatype Option<T> = None | Some(value: T)

  /** Python truthiness of an optional string: `None` and `""` are falsy. */
  predicate Truthy(s: Option<string>)
  {
    s.Some? && s.value != ""
  }

  /** The characters for which Python's `str.isspace()` holds. */
  predicate IsSpace(c: char)
  {
    ('\t' <= c <= '\r') || ('\U{1C}' <= c <= ' ') || c == '\U{85}' || c == '\U{A0}'
    || c == '\U{1680}' || ('\U{2000}' <= c <= '\U{200A}') || c == '\U{2028}' || c == '\U{2029}'
    || c == '\U{202F}' || c == '\U{205F}' || c == '\U{3000}'
  }

  predicate AllSpace(s: string)
  {
    forall k :: 0 <= k < |s| ==> IsSpace(s[k])
  }

  /** Number of whitespace characters at the start of `s`. */
  function LeadingSpace(s: string): (n: nat)
    ensures n <= |s|
  {
    if |s| == 0 || !IsSpace(s[0]) then 0 else LeadingSpace(s[1..]) + 1
  }

  /** Number of whitespace characters at the end of `s`. */
  function TrailingSpace(s: string): (n: nat)
    ensures n <= |s|
  {
    if |s| == 0 || !IsSpace(s[|s| - 1]) then 0 else TrailingSpace(s[..|s| - 1]) + 1
  }

  /** `LeadingSpace` counts exactly the run of whitespace that starts `s`. */
  lemma {:induction false} LeadingSpaceRun(s: string)
    ensures AllSpace(s[..LeadingSpace(s)])
    ensures LeadingSpace(s) < |s| ==> !IsSpace(s[LeadingSpace(s)])
  {
    if |s| > 0 && IsSpace(s[0]) {
      LeadingSpaceRun(s[1..]);
      var n := LeadingSpace(s[1..]);
      var run := s[..n + 1];
      forall k | 0 <= k < |run| ensures IsSpace(run[k]) {
        if k > 0 { assert run[k] == s[1..][..n][k - 1]; }
      }
    }
  }

  /** `TrailingSpace` counts exactly the run of whitespace that ends `s`. */
  lemma {:induction false} TrailingSpaceRun(s: string)
    ensures AllSpace(s[|s| - TrailingSpace(s)..])
    ensures TrailingSpace(s) < |s| ==> !IsSpace(s[|s| - 1 - TrailingSpace(s)])
  {
    if |s| > 0 && IsSpace(s[|s| - 1]) {
      var t := s[..|s| - 1];
      TrailingSpaceRun(t);
      var n := TrailingSpace(t);
      var run := s[|s| - (n + 1)..];
      forall k | 0 <= k < |run| ensures IsSpace(run[k]) {
        if k < n { assert run[k] == t[|t| - n..][k]; }
      }
    }
  }

  /** Python's `s.strip()`: `s` without its leading and trailing whitespace. */
  function Strip(s: string): (r: string)
    ensures |r| <= |s|
  {
    var i := LeadingSpace(s);
    var t := s[i..];
    t[..|t| - TrailingSpace(t)]
  }

  /**
   * `Strip` keeps a slice of `s`, everything it cuts off is whitespace, and
   * what it keeps neither starts nor ends with whitespace.
   */
  lemma StripSlice(s: string)
    ensures var r := Strip(s);
            && (exists i :: 0 <= i <= i + |r| <= |s| && r == s[i..i + |r|]
                             && AllSpace(s[..i]) && AllSpace(s[i + |r|..]))
            && (r == [] || (!IsSpace(r[0]) && !IsSpace(r[|r| - 1])))
  {
    var i := LeadingSpace(s);
    var t := s[i..];
    LeadingSpaceRun(s);
    TrailingSpaceRun(t);
    var n := TrailingSpace(t);
    var r := t[..|t| - n];
    assert r == Strip(s);
    assert r == s[i..i + |r|];
    assert s[i + |r|..] == t[|t| - n..];
    assert r != [] ==> r[0] == s[i];
  }

  /** Stripping twice is stripping once. */
  lemma StripIdempotent(s: string)
    ensures Strip(Strip(s)) == Strip(s)
  {
    var r := Strip(s);
    StripSlice(s);
    if r != [] {
      assert LeadingSpace(r) == 0;
      assert TrailingSpace(r) == 0;
    }
  }

  /** Python's `str.lower()` on one character, for the ASCII letters. */
  function LowerChar(c: char): char
  {
    if 'A' <= c <= 'Z' then (c as int - 'A' as int + 'a' as int) as char else c
  }

  /** Python's `s.lower()`, restricted to the ASCII letters. */
  function Lower(s: string): (r: string)
    ensures |r| == |s|
  {
    seq(|s|, k requires 0 <= k < |s| => LowerChar(s[k]))
  }

  /** The key under which two texts are compared: `s.strip().lower()`. */
  function Normalise(s: string): string
  {
    Lower(Strip(s))
  }

  /** `s.startswith(prefix)`. */
  predicate StartsWith(s: string, prefix: string)
  {
    |prefix| <= |s| && s[..|prefix|] == prefix
  }

  predicate OccursAt(haystack: string, needle: string, i: int)
  {
    0 <= i && i + |needle| <= |haystack| && haystack[i..i + |needle|] == needle
  }

  /** Python's `needle in haystack` on strings. */
  predicate Contains(haystack: string, needle: string)
  {
    exists i :: 0 <= i <= |haystack| - |needle| && OccursAt(haystack, needle, i)
  }
}
