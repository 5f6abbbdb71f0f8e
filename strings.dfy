/**
 * Character and string helpers standing for the Python string methods the
 * scraper relies on: `str.strip`, `str.lower`, `str.title`, the `in`
 * substring test, `startswith` / `endswith`, `split(',')[0]`, the
 * `[\n\r\t]` replacement of column names and the decimal text of an
 * occurrence index.
 */
module Strings {

  /** Python's `str.isspace()`: ASCII and Latin-1 white space and the Unicode space separators. */
  predicate IsSpace(c: char) {
    var n := c as int;
    n == 32 || 9 <= n <= 13 || 28 <= n <= 31 || n == 0x85 || n == 0xA0 || n == 0x1680
    || 0x2000 <= n <= 0x200A || n == 0x2028 || n == 0x2029 || n == 0x202F || n == 0x205F || n == 0x3000
  }

  /** The position of the first character at or after `i` that is not white space (`|s|` if none). */
  function TextStart(s: string, i: nat): (a: nat)
    requires i <= |s|
    ensures i <= a <= |s|
    ensures forall k :: i <= k < a ==> IsSpace(s[k])
    ensures a < |s| ==> !IsSpace(s[a])
    decreases |s| - i
  {
    if i == |s| || !IsSpace(s[i]) then i else TextStart(s, i + 1)
  }

  /** The position just after the last character before `j`, and not before `a`, that is not white space (`a` if none). */
  function TextEnd(s: string, a: nat, j: nat): (b: nat)
    requires a <= j <= |s|
    ensures a <= b <= j
    ensures forall k :: b <= k < j ==> IsSpace(s[k])
    ensures a < b ==> !IsSpace(s[b - 1])
    decreases j
  {
    if j == a || !IsSpace(s[j - 1]) then j else TextEnd(s, a, j - 1)
  }

  /** `s.strip()`: `s` without its leading and trailing white space. */
  function Strip(s: string): (r: string)
    ensures |r| <= |s|
    ensures r != [] ==> !IsSpace(r[0]) && !IsSpace(r[|r| - 1])
  {
    var a := TextStart(s, 0);
    s[a..TextEnd(s, a, |s|)]
  }

  /** Stripping adds no character. */
  lemma StripKeepsOut(s: string, c: char)
    requires c !in s
    ensures c !in Strip(s)
  {
    var a := TextStart(s, 0);
    var b := TextEnd(s, a, |s|);
    forall k | 0 <= k < |Strip(s)|
      ensures Strip(s)[k] != c
    {
      assert Strip(s)[k] == s[a + k];
    }
  }

  /** A stripped string is its own strip. */
  lemma StripIdempotent(s: string)
    ensures Strip(Strip(s)) == Strip(s)
  {
    var r := Strip(s);
    if r != [] {
      assert TextStart(r, 0) == 0;
      assert TextEnd(r, 0, |r|) == |r|;
    }
  }

  /** No string occurs twice. */
  predicate Distinct(names: seq<string>) {
    forall k, l :: 0 <= k < l < |names| ==> names[k] != names[l]
  }

  /** `c.lower()` for the ASCII letters. */
  function LowerChar(c: char): char {
    if 'A' <= c <= 'Z' then (c as int + 32) as char else c
  }

  /** `c.upper()` for the ASCII letters. */
  function UpperChar(c: char): char {
    if 'a' <= c <= 'z' then (c as int - 32) as char else c
  }

  predicate IsLetter(c: char) {
    'a' <= c <= 'z' || 'A' <= c <= 'Z'
  }

  /** `s.lower()`, character by character. */
  function Lower(s: string): (r: string)
    ensures |r| == |s|
  {
    if s == [] then [] else [LowerChar(s[0])] + Lower(s[1..])
  }

  lemma {:induction false} LowerAt(s: string, i: nat)
    requires i < |s|
    ensures Lower(s)[i] == LowerChar(s[i])
  {
    if i > 0 {
      LowerAt(s[1..], i - 1);
    }
  }

  /** `t` agrees with `s` lower-cased from the `i`-th character on. */
  predicate LowersTo(s: string, t: string, i: nat)
    requires |s| == |t| && i <= |s|
    decreases |s| - i
  {
    i == |s| || (LowerChar(s[i]) == t[i] && LowersTo(s, t, i + 1))
  }

  lemma {:induction false} LowersToAt(s: string, t: string, i: nat, j: nat)
    requires |s| == |t| && i <= j < |s| && LowersTo(s, t, i)
    ensures LowerChar(s[j]) == t[j]
    decreases j - i
  {
    if i < j {
      LowersToAt(s, t, i + 1, j);
    }
  }

  /** Lower-casing, checked one character at a time. */
  lemma LowerByChars(s: string, t: string)
    requires |s| == |t| && LowersTo(s, t, 0)
    ensures Lower(s) == t
  {
    forall j | 0 <= j < |s|
      ensures Lower(s)[j] == t[j]
    {
      LowerAt(s, j);
      LowersToAt(s, t, 0, j);
    }
  }

  /** The `i`-th character of `s.title()`: upper-cased when it starts a word (no letter before it), lower-cased otherwise. */
  function TitleChar(s: string, i: nat): char
    requires i < |s|
  {
    if i > 0 && IsLetter(s[i - 1]) then LowerChar(s[i]) else UpperChar(s[i])
  }

  /** `s.title()` for ASCII text. */
  function Title(s: string): (r: string)
    ensures |r| == |s|
    ensures forall i :: 0 <= i < |s| ==> r[i] == TitleChar(s, i)
  {
    seq(|s|, i requires 0 <= i < |s| => TitleChar(s, i))
  }

  /** `t` agrees with `s.title()` from the `i`-th character on. */
  predicate TitlesTo(s: string, t: string, i: nat)
    requires |s| == |t| && i <= |s|
    decreases |s| - i
  {
    i == |s| || (TitleChar(s, i) == t[i] && TitlesTo(s, t, i + 1))
  }

  lemma {:induction false} TitlesToAt(s: string, t: string, i: nat, j: nat)
    requires |s| == |t| && i <= j < |s| && TitlesTo(s, t, i)
    ensures TitleChar(s, j) == t[j]
    decreases j - i
  {
    if i < j {
      TitlesToAt(s, t, i + 1, j);
    }
  }

  /** Title-casing, checked one character at a time. */
  lemma TitleByChars(s: string, t: string)
    requires |s| == |t| && TitlesTo(s, t, 0)
    ensures Title(s) == t
  {
    forall j | 0 <= j < |s|
      ensures Title(s)[j] == t[j]
    {
      TitlesToAt(s, t, 0, j);
    }
  }

  predicate IsPrefix(p: string, s: string) {
    |p| <= |s| && s[..|p|] == p
  }

  /** `needle` agrees with `hay` at offset `i` from the `k`-th character of `needle` on. */
  predicate EqualFrom(hay: string, needle: string, i: nat, k: nat)
    requires i + |needle| <= |hay| && k <= |needle|
    decreases |needle| - k
  {
    k == |needle| || (hay[i + k] == needle[k] && EqualFrom(hay, needle, i, k + 1))
  }

  /** `needle` occurs in `hay` at some offset from `i` on. */
  predicate ContainsFrom(hay: string, needle: string, i: nat)
    decreases |hay| - i
  {
    i + |needle| <= |hay| && (EqualFrom(hay, needle, i, 0) || ContainsFrom(hay, needle, i + 1))
  }

  /** Python's `needle in hay` for strings. */
  predicate Contains(hay: string, needle: string) {
    ContainsFrom(hay, needle, 0)
  }

  predicate OccursAt(hay: string, needle: string, i: nat) {
    i + |needle| <= |hay| && hay[i..i + |needle|] == needle
  }

  lemma {:induction false} EqualFromSlice(hay: string, needle: string, i: nat, k: nat)
    requires i + |needle| <= |hay| && k <= |needle|
    ensures EqualFrom(hay, needle, i, k) <==> hay[i + k..i + |needle|] == needle[k..]
    decreases |needle| - k
  {
    if k < |needle| {
      EqualFromSlice(hay, needle, i, k + 1);
      assert hay[i + k..i + |needle|] == [hay[i + k]] + hay[i + k + 1..i + |needle|];
      assert needle[k..] == [needle[k]] + needle[k + 1..];
    }
  }

  lemma {:induction false} ContainsFromAt(hay: string, needle: string, i: nat)
    ensures ContainsFrom(hay, needle, i) <==> exists j: nat :: i <= j && OccursAt(hay, needle, j)
    decreases |hay| - i
  {
    if i + |needle| <= |hay| {
      EqualFromSlice(hay, needle, i, 0);
      ContainsFromAt(hay, needle, i + 1);
      if EqualFrom(hay, needle, i, 0) {
        assert OccursAt(hay, needle, i);
      }
      if exists j: nat :: i <= j && OccursAt(hay, needle, j) {
        var j: nat :| i <= j && OccursAt(hay, needle, j);
        assert j == i || (i + 1 <= j && OccursAt(hay, needle, j));
      }
    }
  }

  /** `needle in hay` holds exactly when `needle` is the slice of `hay` at some offset. */
  lemma ContainsAt(hay: string, needle: string)
    ensures Contains(hay, needle) <==> exists i: nat :: OccursAt(hay, needle, i)
  {
    ContainsFromAt(hay, needle, 0);
  }

  /** Every character of a string that occurs inside `hay` is a character of `hay`. */
  lemma ContainsChar(hay: string, needle: string, k: nat)
    requires Contains(hay, needle) && k < |needle|
    ensures needle[k] in hay
  {
    ContainsAt(hay, needle);
    var i: nat :| OccursAt(hay, needle, i);
    assert hay[i..i + |needle|][k] == hay[i + k];
  }

  /** A string never occurs inside a shorter one. */
  lemma ContainsLength(hay: string, needle: string)
    requires Contains(hay, needle)
    ensures |needle| <= |hay|
  {
    ContainsAt(hay, needle);
  }

  predicate StartsWith(s: string, prefix: string) {
    IsPrefix(prefix, s)
  }

  predicate EndsWith(s: string, suffix: string) {
    |suffix| <= |s| && s[|s| - |suffix|..] == suffix
  }

  /** `s.split(',')[0]`: the text before the first comma, or all of `s` when it has none. */
  function BeforeComma(s: string): (r: string)
    ensures ',' !in r
    ensures |r| <= |s| && r == s[..|r|]
    ensures |r| == |s| || s[|r|] == ','
  {
    if s == [] || s[0] == ',' then [] else [s[0]] + BeforeComma(s[1..])
  }

  /** `re.sub(r'[\n\r\t]', ' ', s)` */
  function ReplaceControl(s: string): (r: string)
    ensures |r| == |s|
    ensures forall i :: 0 <= i < |s| ==> r[i] == (if s[i] in "\n\r\t" then ' ' else s[i])
  {
    if s == [] then [] else [if s[0] in "\n\r\t" then ' ' else s[0]] + ReplaceControl(s[1..])
  }

  function DigitChar(d: nat): char
    requires d < 10
  {
    "0123456789"[d]
  }

  function DigitValue(c: char): nat {
    if '0' <= c <= '9' then c as int - '0' as int else 0
  }

  /** `str(n)` for a natural number: its decimal digits, most significant first. */
  function NatToString(n: nat): (r: string)
    ensures r != []
    ensures forall i :: 0 <= i < |r| ==> '0' <= r[i] <= '9'
    decreases n
  {
    if n < 10 then [DigitChar(n)] else NatToString(n / 10) + [DigitChar(n % 10)]
  }

  /** The value of a string of decimal digits: `int(s)`. */
  function DigitsValue(s: string): nat {
    if s == [] then 0 else 10 * DigitsValue(s[..|s| - 1]) + DigitValue(s[|s| - 1])
  }

  /** Reading the decimal text of `n` back gives `n`. */
  lemma {:induction false} NatToStringRoundTrip(n: nat)
    ensures DigitsValue(NatToString(n)) == n
    decreases n
  {
    var s := NatToString(n);
    if n < 10 {
      assert s[..|s| - 1] == [];
    } else {
      NatToStringRoundTrip(n / 10);
      assert s[..|s| - 1] == NatToString(n / 10);
    }
  }

  /** Distinct numbers have distinct decimal texts. */
  lemma NatToStringInjective(m: nat, n: nat)
    requires NatToString(m) == NatToString(n)
    ensures m == n
  {
    NatToStringRoundTrip(m);
    NatToStringRoundTrip(n);
  }
}
