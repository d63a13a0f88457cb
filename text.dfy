/**
 * The string primitives the controllers rely on: .NET's `char.IsWhiteSpace`,
 * `string.IsNullOrWhiteSpace`, `string.Trim`, ordinal ignore-case comparison,
 * `Path.GetExtension`, and the ordinal ordering SQLite uses for `ORDER BY` on text.
 */
module Text {
  import opened Wrappers

  /** The characters `char.IsWhiteSpace` accepts: the Unicode space, line and
      paragraph separators, and the control characters U+0009..U+000D and U+0085. */
  predicate IsWhiteSpace(c: char) {
    || c == ' '
    || ('\t' <= c <= '\r')
    || c == '\U{85}'
    || c == '\U{A0}'
    || c == '\U{1680}'
    || ('\U{2000}' <= c <= '\U{200A}')
    || c == '\U{2028}'
    || c == '\U{2029}'
    || c == '\U{202F}'
    || c == '\U{205F}'
    || c == '\U{3000}'
  }

  /** Every character is white space (true of the empty string). */
  predicate IsBlank(s: string) {
    forall i | 0 <= i < |s| :: IsWhiteSpace(s[i])
  }

  /** `string.IsNullOrWhiteSpace`. */
  predicate IsNullOrWhiteSpace(s: Option<string>) {
    s.None? || IsBlank(s.value)
  }

  /** Drops the longest all-white-space prefix. */
  function TrimStart(s: string): string {
    if s != [] && IsWhiteSpace(s[0]) then TrimStart(s[1..]) else s
  }

  /** Drops the longest all-white-space suffix. */
  function TrimEnd(s: string): string {
    if s != [] && IsWhiteSpace(s[|s| - 1]) then TrimEnd(s[..|s| - 1]) else s
  }

  /** `TrimStart` removes exactly the longest white-space prefix. */
  lemma {:induction false} TrimStartRemovesPrefix(s: string)
    ensures var r := TrimStart(s);
      && |r| <= |s| && r == s[|s| - |r|..]
      && IsBlank(s[..|s| - |r|])
      && (r == [] || !IsWhiteSpace(r[0]))
  {
    if s != [] && IsWhiteSpace(s[0]) {
      TrimStartRemovesPrefix(s[1..]);
      var r := TrimStart(s[1..]);
      assert s[..|s| - |r|] == [s[0]] + s[1..][..|s| - 1 - |r|];
    }
  }

  /** `TrimEnd` removes exactly the longest white-space suffix. */
  lemma {:induction false} TrimEndRemovesSuffix(s: string)
    ensures var r := TrimEnd(s);
      && |r| <= |s| && r == s[..|r|]
      && IsBlank(s[|r|..])
      && (r == [] || !IsWhiteSpace(r[|r| - 1]))
  {
    if s != [] && IsWhiteSpace(s[|s| - 1]) {
      TrimEndRemovesSuffix(s[..|s| - 1]);
      var r := TrimEnd(s[..|s| - 1]);
      assert s[|r|..] == s[..|s| - 1][|r|..] + [s[|s| - 1]];
    }
  }

  /** `string.Trim()`: white space removed from both ends. A non-blank input
      leaves non-empty text with no white space at either end. */
  function Trim(s: string): (r: string)
    ensures |r| <= |s|
    ensures r == [] <==> IsBlank(s)
    ensures r != [] ==> IsTrimmedText(r)
  {
    var t := TrimStart(s);
    TrimStartRemovesPrefix(s);
    TrimEndRemovesSuffix(t);
    var r := TrimEnd(t);
    assert r == [] ==> IsBlank(s) by {
      if r == [] {
        assert s == s[..|s| - |t|] + t;
        assert t == t[|r|..];
      }
    }
    r
  }

  /** A non-empty string with no white space at either end: what the controllers
      persist after `Trim()` of a non-blank submission. */
  predicate IsTrimmedText(s: string) {
    s != [] && !IsWhiteSpace(s[0]) && !IsWhiteSpace(s[|s| - 1])
  }

  /** The trimmed string is a slice of the input with only white space cut off either side. */
  lemma TrimSlice(s: string) returns (i: nat, j: nat)
    ensures i <= j <= |s|
    ensures Trim(s) == s[i..j]
    ensures IsBlank(s[..i]) && IsBlank(s[j..])
  {
    var t := TrimStart(s);
    TrimStartRemovesPrefix(s);
    TrimEndRemovesSuffix(t);
    var r := TrimEnd(t);
    i := |s| - |t|;
    j := i + |r|;
    assert t[|r|..] == s[j..];
    assert r == t[..|r|] == s[i..j];
  }

  /** Trimming twice trims nothing more. */
  lemma TrimIdempotent(s: string)
    ensures Trim(Trim(s)) == Trim(s)
  {
    var r := Trim(s);
    if r != [] {
      assert TrimStart(r) == r;
      assert TrimEnd(r) == r;
    } else {
      assert TrimStart(r) == r;
    }
  }

  /** Trimmed text is exactly the text that trimming leaves unchanged and non-empty. */
  lemma TrimmedTextIsFixedPoint(s: string)
    ensures IsTrimmedText(s) <==> s != [] && Trim(s) == s
  {
    if IsTrimmedText(s) {
      assert TrimStart(s) == s;
      assert TrimEnd(s) == s;
    }
  }

  /** Upper-case mapping of `ToUpperInvariant`, for the ASCII letters. */
  function UpperChar(c: char): char {
    if 'a' <= c <= 'z' then (c as int - 'a' as int + 'A' as int) as char else c
  }

  function Upper(s: string): (r: string)
    ensures |r| == |s|
  {
    seq(|s|, i requires 0 <= i < |s| => UpperChar(s[i]))
  }

  /** `StringComparison.OrdinalIgnoreCase` equality. */
  predicate EqualsIgnoreCase(a: string, b: string) {
    Upper(a) == Upper(b)
  }

  /** `s.StartsWith(prefix, StringComparison.OrdinalIgnoreCase)`. */
  predicate StartsWithIgnoreCase(s: string, prefix: string) {
    |prefix| <= |s| && EqualsIgnoreCase(s[..|prefix|], prefix)
  }

  /** `Path.GetExtension` with `/` as the only directory separator: the text from the
      last `.` of the last path segment, or empty when there is no such `.` or it is
      the final character. */
  function GetExtension(path: string): (r: string)
    ensures r != [] ==> 2 <= |r| <= |path| && r == path[|path| - |r|..] && r[0] == '.'
    ensures forall k | 1 <= k < |r| :: r[k] != '.' && r[k] != '/'
    ensures r == [] ==> !exists i | 0 <= i < |path| - 1 :: IsExtensionStart(path, i)
  {
    ExtensionFrom(path, |path|)
  }

  /** `path[i]` is a `.` that starts a non-empty extension of the last segment. */
  predicate IsExtensionStart(path: string, i: int)
    requires 0 <= i < |path|
  {
    path[i] == '.' && i < |path| - 1 && forall k | i < k < |path| :: path[k] != '.' && path[k] != '/'
  }

  /** Scans `path[..n]` backwards; everything from `n` on holds no `.` or `/`. */
  function ExtensionFrom(path: string, n: nat): (r: string)
    requires n <= |path|
    requires forall k | n <= k < |path| :: path[k] != '.' && path[k] != '/'
    ensures r != [] ==> 2 <= |r| <= |path| && r == path[|path| - |r|..] && r[0] == '.'
    ensures forall k | 1 <= k < |r| :: r[k] != '.' && r[k] != '/'
    ensures r == [] ==> !exists i | 0 <= i < |path| - 1 :: IsExtensionStart(path, i)
    decreases n
  {
    if n == 0 then []
    else if path[n - 1] == '.' then (if n - 1 == |path| - 1 then [] else path[n - 1..])
    else if path[n - 1] == '/' then []
    else ExtensionFrom(path, n - 1)
  }

  /** The ordinal order of SQLite's BINARY collation: code point by code point, a
      proper prefix first. */
  predicate StrLe(a: string, b: string) {
    if a == [] then true
    else if b == [] then false
    else if a[0] != b[0] then a[0] < b[0]
    else StrLe(a[1..], b[1..])
  }

  lemma {:induction false} StrLeTotal(a: string, b: string)
    ensures StrLe(a, b) || StrLe(b, a)
  {
    if a != [] && b != [] && a[0] == b[0] {
      StrLeTotal(a[1..], b[1..]);
    }
  }

  lemma {:induction false} StrLeTransitive(a: string, b: string, c: string)
    requires StrLe(a, b) && StrLe(b, c)
    ensures StrLe(a, c)
  {
    if a != [] && b != [] && c != [] && a[0] == b[0] == c[0] {
      StrLeTransitive(a[1..], b[1..], c[1..]);
    }
  }

  lemma {:induction false} StrLeAntisymmetric(a: string, b: string)
    requires StrLe(a, b) && StrLe(b, a)
    ensures a == b
  {
    if a != [] && b != [] {
      StrLeAntisymmetric(a[1..], b[1..]);
      assert a == [a[0]] + a[1..];
      assert b == [b[0]] + b[1..];
    }
  }
}
