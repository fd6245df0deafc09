/**
 * Java string operations that the modelled code relies on: joining,
 * decimal rendering of integers, `String.trim`, ASCII upper-casing and the
 * regular-expression class `\s`.
 */
module Text {

  /** Guava `Joiner.on(sep).join(parts)` and Commons `StringUtils.join(parts, sep)`. */
  function Join(parts: seq<string>, sep: string): (r: string)
    ensures |parts| == 0 ==> r == ""
    ensures |parts| == 1 ==> r == parts[0]
    ensures |parts| > 1 ==> |r| >= |sep|
  {
    if |parts| == 0 then ""
    else if |parts| == 1 then parts[0]
    else parts[0] + sep + Join(parts[1..], sep)
  }

  /** Joining a part in front of a non-empty rest puts one separator between them. */
  lemma JoinCons(x: string, rest: seq<string>, sep: string)
    requires |rest| > 0
    ensures Join([x] + rest, sep) == x + sep + Join(rest, sep)
  {
    assert ([x] + rest)[1..] == rest;
  }

  /** Total length of the strings in `parts`. */
  function TotalLength(parts: seq<string>): nat
  {
    if |parts| == 0 then 0 else |parts[0]| + TotalLength(parts[1..])
  }

  /** Joining `k > 0` parts adds `k - 1` separators and nothing else. */
  lemma {:induction false} JoinLength(parts: seq<string>, sep: string)
    requires |parts| > 0
    ensures |Join(parts, sep)| == TotalLength(parts) + (|parts| - 1) * |sep|
  {
    if |parts| > 1 {
      JoinLength(parts[1..], sep);
    }
  }

  /** Appending one part appends one separator and the part. */
  lemma {:induction false} JoinSnoc(parts: seq<string>, x: string, sep: string)
    requires |parts| > 0
    ensures Join(parts + [x], sep) == Join(parts, sep) + sep + x
  {
    if |parts| == 1 {
      assert (parts + [x])[1..] == [x];
    } else {
      assert (parts + [x])[1..] == parts[1..] + [x];
      JoinSnoc(parts[1..], x, sep);
    }
  }

  // ---------------------------------------------------------------------
  // Decimal rendering of non-negative integers (Java's `"" + n`).

  predicate IsDigit(c: char) { '0' as int <= c as int <= '9' as int }

  function DigitChar(d: nat): (c: char)
    requires d < 10
    ensures IsDigit(c) && c as int - '0' as int == d
  {
    ('0' as int + d) as char
  }

  /** The decimal text of `n`, as Java's string concatenation prints an int. */
  function NatToString(n: nat): (r: string)
    ensures |r| > 0
    ensures forall i :: 0 <= i < |r| ==> IsDigit(r[i])
    ensures n >= 10 ==> r[0] != '0'
    ensures |r| > 1 ==> r[0] != '0'
  {
    if n < 10 then [DigitChar(n)] else NatToString(n / 10) + [DigitChar(n % 10)]
  }

  /** Reads a string of digits back as a number. */
  function ParseDecimal(s: string): nat
    requires forall i :: 0 <= i < |s| ==> IsDigit(s[i])
  {
    if |s| == 0 then 0
    else
      assert IsDigit(s[|s| - 1]);
      ParseDecimal(s[..|s| - 1]) * 10 + (s[|s| - 1] as int - '0' as int)
  }

  /** The decimal text of a number reads back as that number. */
  lemma {:induction false} DecimalRoundTrip(n: nat)
    ensures ParseDecimal(NatToString(n)) == n
  {
    if n >= 10 {
      var s := NatToString(n);
      assert s[..|s| - 1] == NatToString(n / 10);
      DecimalRoundTrip(n / 10);
    }
  }

  /** Different numbers have different decimal texts. */
  lemma NatToStringInjective(m: nat, n: nat)
    requires NatToString(m) == NatToString(n)
    ensures m == n
  {
    DecimalRoundTrip(m);
    DecimalRoundTrip(n);
  }

  // ---------------------------------------------------------------------
  // Java's `String.trim`, `toUpperCase` and the regex class `\s`.

  /** A character of the regex class `\s`: `[ \t\n\x0B\f\r]`. */
  predicate IsRegexSpace(c: char)
  {
    c == ' ' || 9 <= c as int <= 13
  }

  /** A character that `String.trim` removes: any code point up to U+0020. */
  predicate IsTrimmable(c: char)
  {
    c as int <= 32
  }

  function TrimStart(s: string): (r: string)
    ensures |r| <= |s| && r == s[|s| - |r|..]
    ensures |r| > 0 ==> !IsTrimmable(r[0])
    ensures forall i :: 0 <= i < |s| - |r| ==> IsTrimmable(s[i])
  {
    if |s| > 0 && IsTrimmable(s[0]) then TrimStart(s[1..]) else s
  }

  function TrimEnd(s: string): (r: string)
    ensures |r| <= |s| && r == s[..|r|]
    ensures |r| > 0 ==> !IsTrimmable(r[|r| - 1])
    ensures forall i :: |r| <= i < |s| ==> IsTrimmable(s[i])
  {
    if |s| > 0 && IsTrimmable(s[|s| - 1]) then TrimEnd(s[..|s| - 1]) else s
  }

  /** Java's `String.trim`. */
  function Trim(s: string): (r: string)
  {
    TrimEnd(TrimStart(s))
  }

  /**
   * `Trim` removes exactly a trimmable prefix and a trimmable suffix: the
   * result is the part of the input between offsets `a` and `a + |Trim(s)|`,
   * everything outside it is trimmable and its ends are not.
   */
  lemma TrimSpec(s: string, a: nat)
    requires a == |s| - |TrimStart(s)|
    ensures a + |Trim(s)| <= |s| && Trim(s) == s[a..a + |Trim(s)|]
    ensures forall i :: 0 <= i < a ==> IsTrimmable(s[i])
    ensures forall i :: a + |Trim(s)| <= i < |s| ==> IsTrimmable(s[i])
    ensures |Trim(s)| > 0 ==> !IsTrimmable(Trim(s)[0]) && !IsTrimmable(Trim(s)[|Trim(s)| - 1])
  {
    TrimSlice(s, a);
    TrimSuffixTrimmable(s, a);
  }

  lemma TrimSlice(s: string, a: nat)
    requires a == |s| - |TrimStart(s)|
    ensures a + |Trim(s)| <= |s| && Trim(s) == s[a..a + |Trim(s)|]
  {
    var t := TrimStart(s);
    var r := TrimEnd(t);
    PrefixOfSuffix(s, a, |r|);
  }

  lemma TrimSuffixTrimmable(s: string, a: nat)
    requires a == |s| - |TrimStart(s)|
    ensures forall i :: a + |Trim(s)| <= i < |s| ==> IsTrimmable(s[i])
  {
    var t := TrimStart(s);
    var r := TrimEnd(t);
    forall i | a + |r| <= i < |s|
      ensures IsTrimmable(s[i])
    {
      SuffixIndex(s, a, i);
    }
  }

  lemma PrefixOfSuffix(s: string, a: nat, k: nat)
    requires a + k <= |s|
    ensures s[a..][..k] == s[a..a + k]
  {
  }

  lemma SuffixIndex(s: string, a: nat, i: nat)
    requires a <= i < |s|
    ensures s[a..][i - a] == s[i]
  {
  }

  /** A string whose ends are not trimmable is left alone by `Trim`. */
  lemma TrimIdentity(s: string)
    requires |s| > 0 ==> !IsTrimmable(s[0]) && !IsTrimmable(s[|s| - 1])
    ensures Trim(s) == s
  {
  }

  function UpperChar(c: char): char
  {
    if 'a' <= c <= 'z' then (c as int - 32) as char else c
  }

  /** `String.toUpperCase` restricted to ASCII letters. */
  function ToUpperAscii(s: string): (r: string)
    ensures |r| == |s|
    ensures forall i :: 0 <= i < |r| ==> !('a' <= r[i] <= 'z')
    ensures forall i :: 0 <= i < |s| && 'a' <= s[i] <= 'z' ==> r[i] as int - 'A' as int == s[i] as int - 'a' as int
    ensures forall i :: 0 <= i < |s| && !('a' <= s[i] <= 'z') ==> r[i] == s[i]
  {
    seq(|s|, i requires 0 <= i < |s| => UpperChar(s[i]))
  }
}
