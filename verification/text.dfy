/** The Python string operations the scripts rely on: `strip`, `split`,
    `lower`, `isalpha`, `startswith`, `int()` and the ordinal ordering of
    `str`. Only the ASCII behaviour of each is modelled. */
module Text {
  import opened Wrappers

  /** The characters below U+0080 that Python's `str.strip()` removes. */
  const Whitespace: set<char> :=
    {' ', '\t', '\n', '\r', '\U{000B}', '\U{000C}', '\U{001C}', '\U{001D}', '\U{001E}', '\U{001F}'}

  /** Drops the leading characters that belong to `cs`. */
  function TrimLeft(s: string, cs: set<char>): (r: string)
    ensures |r| <= |s| && r == s[|s| - |r|..]
    ensures r == [] || r[0] !in cs
    ensures forall k :: 0 <= k < |s| - |r| ==> s[k] in cs
  {
    if s != [] && s[0] in cs then
      var r := TrimLeft(s[1..], cs);
      assert s[1..][|s| - 1 - |r|..] == s[|s| - |r|..];
      assert forall k :: 1 <= k < |s| - |r| ==> s[k] == s[1..][k - 1];
      r
    else s
  }

  /** Drops the trailing characters that belong to `cs`. */
  function TrimRight(s: string, cs: set<char>): (r: string)
    ensures |r| <= |s| && r == s[..|r|]
    ensures r == [] || r[|r| - 1] !in cs
    ensures forall k :: |r| <= k < |s| ==> s[k] in cs
  {
    if s != [] && s[|s| - 1] in cs then
      var r := TrimRight(s[..|s| - 1], cs);
      assert s[..|s| - 1][..|r|] == s[..|r|];
      assert forall k :: |r| <= k < |s| - 1 ==> s[k] == s[..|s| - 1][k];
      r
    else s
  }

  /** Python's `s.strip(chars)`. */
  function StripChars(s: string, cs: set<char>): string {
    TrimRight(TrimLeft(s, cs), cs)
  }

  /** Python's `s.strip()`. */
  function Strip(s: string): string {
    StripChars(s, Whitespace)
  }

  function LowerChar(c: char): char {
    if 'A' <= c <= 'Z' then (c as int + 32) as char else c
  }

  /** Python's `s.lower()` on ASCII letters. */
  function Lower(s: string): string {
    seq(|s|, i requires 0 <= i < |s| => LowerChar(s[i]))
  }

  /** Stripping a string that neither starts nor ends with whitespace
      leaves it as it is. */
  lemma StripKeeps(s: string)
    requires s != [] ==> s[0] !in Whitespace && s[|s| - 1] !in Whitespace
    ensures Strip(s) == s
  {
  }

  /** Lower-casing a string without capitals leaves it as it is. */
  lemma LowerKeeps(s: string)
    requires forall i :: 0 <= i < |s| ==> !('A' <= s[i] <= 'Z')
    ensures Lower(s) == s
  {
  }

  predicate IsLetter(c: char) {
    ('A' <= c <= 'Z') || ('a' <= c <= 'z')
  }

  /** Python's `s.isalpha()`: non-empty and letters only. */
  predicate IsAlpha(s: string) {
    |s| > 0 && forall i :: 0 <= i < |s| ==> IsLetter(s[i])
  }

  /** Python's `s.startswith(prefix)`. */
  predicate StartsWith(s: string, prefix: string) {
    |prefix| <= |s| && s[..|prefix|] == prefix
  }

  /** Python's `needle in haystack` on two strings. */
  predicate IsSubstring(needle: string, haystack: string)
    decreases |haystack|
  {
    StartsWith(haystack, needle) || (haystack != [] && IsSubstring(needle, haystack[1..]))
  }

  /** Python's `s.split(sep)` for a one-character separator: always at
      least one piece, and empty pieces are kept. */
  function Split(s: string, sep: char): (parts: seq<string>)
    ensures |parts| >= 1
    ensures forall i :: 0 <= i < |parts| ==> sep !in parts[i]
  {
    if s == [] then [""]
    else
      var rest := Split(s[1..], sep);
      if s[0] == sep then [""] + rest else [[s[0]] + rest[0]] + rest[1..]
  }

  /** Python's `sep.join(parts)`. */
  function Join(parts: seq<string>, sep: char): string
    decreases |parts|
  {
    if parts == [] then ""
    else if |parts| == 1 then parts[0]
    else parts[0] + [sep] + Join(parts[1..], sep)
  }

  /** Splitting loses nothing: joining the pieces gives the text back. */
  lemma {:induction false} JoinSplit(s: string, sep: char)
    ensures Join(Split(s, sep), sep) == s
  {
    if s != [] {
      var rest := Split(s[1..], sep);
      JoinSplit(s[1..], sep);
      if s[0] == sep {
        assert Split(s, sep) == [""] + rest;
      } else {
        var parts := [[s[0]] + rest[0]] + rest[1..];
        assert Split(s, sep) == parts;
        if |rest| > 1 {
          assert rest == [rest[0]] + rest[1..];
          assert Join(rest, sep) == rest[0] + [sep] + Join(rest[1..], sep);
          assert parts[1..] == rest[1..];
        }
      }
    }
  }

  /** Pieces free of the separator are recovered by splitting their join. */
  lemma {:induction false} SplitJoin(parts: seq<string>, sep: char)
    requires |parts| >= 1
    requires forall i :: 0 <= i < |parts| ==> sep !in parts[i]
    ensures Split(Join(parts, sep), sep) == parts
    decreases |parts|, |parts[0]|
  {
    if |parts| == 1 {
      SplitNoSeparator(parts[0], sep);
    } else if parts[0] == [] {
      var tail := Join(parts[1..], sep);
      assert Join(parts, sep) == [sep] + tail;
      SplitJoin(parts[1..], sep);
      assert ([sep] + tail)[1..] == tail;
      assert parts == [""] + parts[1..];
    } else {
      var c := parts[0][0];
      var shorter := [parts[0][1..]] + parts[1..];
      assert c != sep by { assert c in parts[0]; }
      ShorterHead(parts, sep);
      SplitJoin(shorter, sep);
      var j := Join(parts, sep);
      var rest := Split(j[1..], sep);
      assert rest == shorter;
      assert [c] + rest[0] == parts[0];
      assert parts == [parts[0]] + parts[1..];
    }
  }

  /** Joining parts whose first part is not empty: the first character,
      then the join with that character dropped from the first part. */
  lemma ShorterHead(parts: seq<string>, sep: char)
    requires |parts| >= 2 && parts[0] != []
    requires forall i :: 0 <= i < |parts| ==> sep !in parts[i]
    ensures var shorter := [parts[0][1..]] + parts[1..];
      && |shorter| >= 1 && (forall i :: 0 <= i < |shorter| ==> sep !in shorter[i])
      && Join(parts, sep)[0] == parts[0][0] && Join(parts, sep)[1..] == Join(shorter, sep)
  {
    var shorter := [parts[0][1..]] + parts[1..];
    assert shorter[1..] == parts[1..];
    forall i | 0 <= i < |shorter| ensures sep !in shorter[i] {
      if i == 0 {
        forall x | x in parts[0][1..] ensures x != sep { assert x in parts[0]; }
      } else {
        assert shorter[i] == parts[i];
      }
    }
    var j := Join(parts, sep);
    assert j == parts[0] + [sep] + Join(parts[1..], sep);
  }

  lemma {:induction false} SplitNoSeparator(s: string, sep: char)
    requires sep !in s
    ensures Split(s, sep) == [s]
  {
    if s != [] {
      assert s[0] in s;
      forall x | x in s[1..] ensures x != sep { assert x in s; }
      SplitNoSeparator(s[1..], sep);
      assert s == [s[0]] + s[1..];
    }
  }

  // ---------------------------------------------------------------------
  // Ordering of `str` values: Python compares strings code point by code
  // point, a proper prefix first.

  predicate LexLe(a: string, b: string)
    decreases |a|
  {
    a == [] || (b != [] && (a[0] < b[0] || (a[0] == b[0] && LexLe(a[1..], b[1..]))))
  }

  /** Python's `a < b` on strings. */
  predicate LexLt(a: string, b: string) {
    !LexLe(b, a)
  }

  lemma {:induction false} LexLeReflexive(a: string)
    ensures LexLe(a, a)
  {
    if a != [] { LexLeReflexive(a[1..]); }
  }

  lemma {:induction false} LexLeTotal(a: string, b: string)
    ensures LexLe(a, b) || LexLe(b, a)
  {
    if a != [] && b != [] && a[0] == b[0] { LexLeTotal(a[1..], b[1..]); }
  }

  lemma {:induction false} LexLeTransitive(a: string, b: string, c: string)
    requires LexLe(a, b) && LexLe(b, c)
    ensures LexLe(a, c)
  {
    if a != [] && b != [] && c != [] && a[0] == b[0] && b[0] == c[0] {
      LexLeTransitive(a[1..], b[1..], c[1..]);
    }
  }

  lemma {:induction false} LexLeAntisymmetric(a: string, b: string)
    requires LexLe(a, b) && LexLe(b, a)
    ensures a == b
  {
    if a != [] && b != [] {
      LexLeAntisymmetric(a[1..], b[1..]);
      assert a == [a[0]] + a[1..] && b == [b[0]] + b[1..];
    }
  }

  lemma LexLtImpliesLe(a: string, b: string)
    requires LexLt(a, b)
    ensures LexLe(a, b) && a != b
  {
    LexLeTotal(a, b);
    if a == b { LexLeReflexive(a); }
  }

  /** `a < b <= c` gives `a < c`. */
  lemma LexLtLe(a: string, b: string, c: string)
    requires LexLt(a, b) && LexLe(b, c)
    ensures LexLt(a, c)
  {
    if LexLe(c, a) { LexLeTransitive(b, c, a); }
  }

  // ---------------------------------------------------------------------
  // Python's `int(s)` on a string that `strip()` has already cleaned:
  // an optional sign, then ASCII digits in which single underscores may
  // separate digits.

  predicate IsDigit(c: char) {
    '0' <= c <= '9'
  }

  predicate AllDigits(s: string) {
    forall i :: 0 <= i < |s| ==> IsDigit(s[i])
  }

  /** Digits, possibly grouped by single underscores (`1_000`). */
  predicate IsDigitGroup(s: string) {
    && |s| > 0
    && IsDigit(s[0])
    && IsDigit(s[|s| - 1])
    && (forall i :: 0 <= i < |s| ==> IsDigit(s[i]) || s[i] == '_')
    && (forall i :: 0 <= i < |s| - 1 && s[i] == '_' ==> IsDigit(s[i + 1]))
  }

  function DropUnderscores(s: string): (r: string)
    ensures |r| <= |s|
    ensures (forall i :: 0 <= i < |s| ==> IsDigit(s[i]) || s[i] == '_') ==> AllDigits(r)
  {
    if s == [] then []
    else (if s[0] == '_' then [] else [s[0]]) + DropUnderscores(s[1..])
  }

  /** The number a string of decimal digits denotes. */
  function DigitsValue(s: string): nat
    requires AllDigits(s)
  {
    if s == [] then 0
    else 10 * DigitsValue(s[..|s| - 1]) + (s[|s| - 1] as int - '0' as int)
  }

  /** The value of a digit group, underscores ignored. */
  function GroupValue(s: string): nat
    requires IsDigitGroup(s)
  {
    DigitsValue(DropUnderscores(s))
  }

  function ParseInt(s: string): Option<int> {
    if |s| > 0 && (s[0] == '+' || s[0] == '-') then
      if IsDigitGroup(s[1..]) then
        var v: int := GroupValue(s[1..]);
        Some(if s[0] == '-' then -v else v)
      else None
    else if IsDigitGroup(s) then Some(GroupValue(s))
    else None
  }

  /** Python's `str(n)` for a natural number. */
  function NatToString(n: nat): (r: string)
    ensures |r| > 0 && AllDigits(r)
  {
    if n < 10 then [('0' as int + n) as char]
    else NatToString(n / 10) + [('0' as int + n % 10) as char]
  }

  lemma {:induction false} DropUnderscoresOfDigits(s: string)
    requires AllDigits(s)
    ensures DropUnderscores(s) == s
  {
    if s != [] {
      assert AllDigits(s[1..]) by { forall i | 0 <= i < |s[1..]| ensures IsDigit(s[1..][i]) { assert s[1..][i] == s[i + 1]; } }
      DropUnderscoresOfDigits(s[1..]);
      assert s == [s[0]] + s[1..];
    }
  }

  lemma {:induction false} NatToStringValue(n: nat)
    ensures DigitsValue(NatToString(n)) == n
  {
    if n >= 10 {
      NatToStringValue(n / 10);
      var r := NatToString(n);
      assert r[..|r| - 1] == NatToString(n / 10);
    }
  }

  /** `int(str(n)) == n`: the decimal rendering of a number parses back to it. */
  lemma ParseIntOfNatToString(n: nat)
    ensures ParseInt(NatToString(n)) == Some(n)
  {
    var r := NatToString(n);
    DropUnderscoresOfDigits(r);
    NatToStringValue(n);
    assert IsDigitGroup(r);
  }
}
