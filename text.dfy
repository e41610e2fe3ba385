/**
 * The few JavaScript string operations the polling client and server rely on:
 * `trim`, `split(c)[0]`, the last element of `split(c)`, and `includes`.
 */
module Text {

  /** The characters `String.prototype.trim` removes: white space and line terminators. */
  predicate IsWhitespace(c: char) {
    c == ' ' || c == '\t' || c == '\n' || c == '\U{000B}' || c == '\U{000C}' || c == '\r'
    || c == '\U{00A0}' || c == '\U{1680}' || ('\U{2000}' <= c <= '\U{200A}')
    || c == '\U{2028}' || c == '\U{2029}' || c == '\U{202F}' || c == '\U{205F}' || c == '\U{3000}'
    || c == '\U{FEFF}'
  }

  /** True when `s` holds nothing but white space (so `s.trim()` is falsy). */
  predicate IsBlank(s: string) {
    forall i :: 0 <= i < |s| ==> IsWhitespace(s[i])
  }

  /** Leading white space removed: a suffix of `s` that starts with a visible character. */
  function TrimStart(s: string): (r: string)
    ensures |r| <= |s| && r == s[|s| - |r|..]
    ensures forall i :: 0 <= i < |s| - |r| ==> IsWhitespace(s[i])
    ensures r == [] || !IsWhitespace(r[0])
  {
    if s != [] && IsWhitespace(s[0]) then TrimStart(s[1..]) else s
  }

  /** Trailing white space removed: a prefix of `s` that ends with a visible character. */
  function TrimEnd(s: string): (r: string)
    ensures |r| <= |s| && r == s[..|r|]
    ensures forall i :: |r| <= i < |s| ==> IsWhitespace(s[i])
    ensures r == [] || !IsWhitespace(r[|r| - 1])
  {
    if s != [] && IsWhitespace(s[|s| - 1]) then TrimEnd(s[..|s| - 1]) else s
  }

  /** `s.trim()`. */
  function Trim(s: string): (r: string)
    ensures r == [] <==> IsBlank(s)
    ensures r == [] || (!IsWhitespace(r[0]) && !IsWhitespace(r[|r| - 1]))
  {
    var t := TrimStart(s);
    var r := TrimEnd(t);
    assert r == [] ==> IsBlank(s) by {
      if r == [] {
        forall i | 0 <= i < |s| ensures IsWhitespace(s[i]) {
          if i >= |s| - |t| {
            assert s[i] == t[i - (|s| - |t|)];
          }
        }
      }
    }
    r
  }

  /** True when the first and last characters of `s` are visible (or `s` is empty). */
  predicate IsTrimmed(s: string) {
    s == [] || (!IsWhitespace(s[0]) && !IsWhitespace(s[|s| - 1]))
  }

  lemma {:induction false} TrimStartBlankPrefix(a: string, m: string)
    requires IsBlank(a)
    requires m == [] || !IsWhitespace(m[0])
    ensures TrimStart(a + m) == m
    decreases |a|
  {
    if a == [] {
      assert a + m == m;
    } else {
      assert (a + m)[1..] == a[1..] + m;
      TrimStartBlankPrefix(a[1..], m);
    }
  }

  lemma {:induction false} TrimEndBlankSuffix(m: string, b: string)
    requires IsBlank(b)
    requires m == [] || !IsWhitespace(m[|m| - 1])
    ensures TrimEnd(m + b) == m
    decreases |b|
  {
    if b == [] {
      assert m + b == m;
    } else {
      assert (m + b)[..|m + b| - 1] == m + b[..|b| - 1];
      TrimEndBlankSuffix(m, b[..|b| - 1]);
    }
  }

  /** Trimming removes exactly the white space around a visible core, whatever that white space is. */
  lemma TrimSurrounded(a: string, m: string, b: string)
    requires IsBlank(a) && IsBlank(b) && IsTrimmed(m)
    ensures Trim(a + m + b) == m
  {
    if m == [] {
      assert a + m + b == a + b;
      assert IsBlank(a + b);
    } else {
      assert a + m + b == a + (m + b);
      TrimStartBlankPrefix(a, m + b);
      TrimEndBlankSuffix(m, b);
    }
  }

  /** A string that already starts and ends with a visible character is its own trim. */
  lemma TrimmedUnchanged(s: string)
    requires IsTrimmed(s)
    ensures Trim(s) == s
  {
    assert TrimStart(s) == s;
    assert TrimEnd(s) == s;
  }

  /** Trimming never brings in a character the string did not hold. */
  lemma TrimKeepsAbsent(s: string, c: char)
    requires c !in s
    ensures c !in Trim(s)
  {
    var t := TrimStart(s);
    assert c !in t by {
      forall k | 0 <= k < |t| ensures t[k] != c {
        assert t[k] == s[|s| - |t| + k];
      }
    }
    var r := TrimEnd(t);
    forall k | 0 <= k < |r| ensures r[k] != c {
      assert r[k] == t[k];
    }
  }

  /** What `s.split(c)[0]` returns: everything before the first `c`, or all of `s`. */
  function Before(s: string, c: char): (r: string)
    ensures |r| <= |s| && r == s[..|r|]
    ensures c !in r
    ensures |r| < |s| ==> s[|r|] == c
  {
    if s == [] || s[0] == c then [] else [s[0]] + Before(s[1..], c)
  }

  /** What the last element of `s.split(c)` is: everything after the last `c`, or all of `s`. */
  function AfterLast(s: string, c: char): (r: string)
    ensures |r| <= |s| && r == s[|s| - |r|..]
    ensures c !in r
    ensures |r| < |s| ==> s[|s| - |r| - 1] == c
  {
    if s == [] || s[|s| - 1] == c then [] else AfterLast(s[..|s| - 1], c) + [s[|s| - 1]]
  }

  /** Cutting at a character that does not occur changes nothing. */
  lemma BeforeAbsent(s: string, c: char)
    requires c !in s
    ensures Before(s, c) == s
  {
  }

  /** True when `p` occurs in `s` starting at index `i`. */
  predicate OccursAt(s: string, p: string, i: int) {
    0 <= i <= |s| - |p| && s[i..i + |p|] == p
  }

  /** `s.includes(p)`. */
  predicate Contains(s: string, p: string) {
    exists i :: 0 <= i <= |s| - |p| && OccursAt(s, p, i)
  }

  /** A string cannot contain a pattern holding a character the string lacks. */
  lemma NotContainsMissingChar(s: string, p: string, k: nat)
    requires k < |p| && p[k] !in s
    ensures !Contains(s, p)
  {
    forall i | 0 <= i <= |s| - |p| ensures !OccursAt(s, p, i) {
      assert s[i + k] in s;
    }
  }
}
