/**
 * Helpers of the Teradata connector: normalising query text, validating the
 * transaction mode given on the command line, and building the expression
 * that reads a timestamp column in UTC.
 */
module TeradataUtils {
  import opened Wrappers
  import opened Text

  // ---------------------------------------------------------------------
  // formatQuery: replaceAll("\\s+", " "), replaceAll("\\( ", "("),
  // replaceAll(" \\)", ")"), then trim().

  /** Drops the leading run of `\s` characters. */
  function SkipSpaces(s: string): (r: string)
    ensures |r| <= |s| && r == s[|s| - |r|..]
    ensures |r| > 0 ==> !IsRegexSpace(r[0])
    ensures forall i :: 0 <= i < |s| - |r| ==> IsRegexSpace(s[i])
  {
    if |s| > 0 && IsRegexSpace(s[0]) then SkipSpaces(s[1..]) else s
  }

  /** `replaceAll("\\s+", " ")`: every maximal run of `\s` becomes one space. */
  function CollapseWhitespace(s: string): (r: string)
    ensures |s| > 0 ==> |r| > 0 && (IsRegexSpace(r[0]) <==> IsRegexSpace(s[0]))
    ensures forall i :: 0 <= i < |r| && IsRegexSpace(r[i]) ==> r[i] == ' '
    ensures forall i :: 0 <= i < |r| - 1 ==> !(r[i] == ' ' && r[i + 1] == ' ')
    decreases |s|
  {
    if |s| == 0 then ""
    else if IsRegexSpace(s[0]) then " " + CollapseWhitespace(SkipSpaces(s))
    else [s[0]] + CollapseWhitespace(s[1..])
  }

  /** `replaceAll("\\( ", "(")`: scans left to right and drops each space that follows "(". */
  function DropSpaceAfterOpen(s: string): (r: string)
    ensures |s| > 0 ==> |r| > 0 && r[0] == s[0]
    decreases |s|
  {
    if |s| >= 2 && s[0] == '(' && s[1] == ' ' then "(" + DropSpaceAfterOpen(s[2..])
    else if |s| == 0 then ""
    else [s[0]] + DropSpaceAfterOpen(s[1..])
  }

  /** `replaceAll(" \\)", ")")`: scans left to right and drops each space that precedes ")". */
  function DropSpaceBeforeClose(s: string): (r: string)
    ensures |s| > 0 ==> |r| > 0 && (r[0] == s[0] || (s[0] == ' ' && r[0] == ')'))
    decreases |s|
  {
    if |s| >= 2 && s[0] == ' ' && s[1] == ')' then ")" + DropSpaceBeforeClose(s[2..])
    else if |s| == 0 then ""
    else [s[0]] + DropSpaceBeforeClose(s[1..])
  }

  /**
   * `TeradataUtils.formatQuery`. The result has only single plain spaces, no
   * space after "(" or before ")" at any nesting depth, no whitespace at
   * either end, and the same characters above U+0020, in the same order, as
   * the input.
   */
  function FormatQuery(query: string): (r: string)
    ensures Formatted(r)
    ensures Visible(r) == Visible(query)
  {
    var c := CollapseWhitespace(query);
    var o := DropSpaceAfterOpen(c);
    var p := DropSpaceBeforeClose(o);
    DropSpaceAfterOpenShape(c);
    DropSpaceBeforeCloseShape(o);
    TrimShape(p);
    CollapseVisible(query);
    DropSpaceAfterOpenVisible(c);
    DropSpaceBeforeCloseVisible(o);
    TrimVisible(p);
    Trim(p)
  }

  // The shape of a formatted query, one property at a time.

  /** The only `\s` character left is the plain space. */
  ghost predicate OnlyPlainSpaces(s: string)
  {
    forall i :: 0 <= i < |s| && IsRegexSpace(s[i]) ==> s[i] == ' '
  }

  /** No two spaces are adjacent. */
  ghost predicate NoDoubleSpace(s: string)
  {
    forall i :: 0 <= i < |s| - 1 ==> !(s[i] == ' ' && s[i + 1] == ' ')
  }

  /** No space directly follows "(". */
  ghost predicate NoSpaceAfterOpen(s: string)
  {
    forall i :: 0 <= i < |s| - 1 ==> !(s[i] == '(' && s[i + 1] == ' ')
  }

  /** No space directly precedes ")". */
  ghost predicate NoSpaceBeforeClose(s: string)
  {
    forall i :: 0 <= i < |s| - 1 ==> !(s[i] == ' ' && s[i + 1] == ')')
  }

  /** Neither end is a character that `trim` would remove. */
  ghost predicate Trimmed(s: string)
  {
    |s| > 0 ==> !IsTrimmable(s[0]) && !IsTrimmable(s[|s| - 1])
  }

  ghost predicate Formatted(s: string)
  {
    OnlyPlainSpaces(s) && NoDoubleSpace(s) && NoSpaceAfterOpen(s) && NoSpaceBeforeClose(s) && Trimmed(s)
  }

  /** The characters above U+0020, in order: what the formatting must not touch. */
  function Visible(s: string): (r: string)
    ensures |r| <= |s|
  {
    if |s| == 0 then ""
    else if IsTrimmable(s[0]) then Visible(s[1..])
    else [s[0]] + Visible(s[1..])
  }

  lemma {:induction false} VisibleAppend(a: string, b: string)
    ensures Visible(a + b) == Visible(a) + Visible(b)
  {
    if |a| == 0 {
      assert a + b == b;
    } else {
      assert (a + b)[0] == a[0] && (a + b)[1..] == a[1..] + b;
      VisibleAppend(a[1..], b);
    }
  }

  lemma {:induction false} VisibleOfTrimmable(s: string)
    requires forall i :: 0 <= i < |s| ==> IsTrimmable(s[i])
    ensures Visible(s) == ""
  {
    if |s| > 0 {
      VisibleOfTrimmable(s[1..]);
    }
  }

  lemma {:induction false} CollapseVisible(s: string)
    ensures Visible(CollapseWhitespace(s)) == Visible(s)
    decreases |s|
  {
    if |s| > 0 {
      if IsRegexSpace(s[0]) {
        var t := SkipSpaces(s);
        CollapseVisible(t);
        var k := |s| - |t|;
        assert s == s[..k] + t;
        VisibleOfTrimmable(s[..k]);
        VisibleAppend(s[..k], t);
        VisibleAppend(" ", CollapseWhitespace(t));
      } else {
        CollapseVisible(s[1..]);
        assert s == [s[0]] + s[1..];
        VisibleAppend([s[0]], s[1..]);
        VisibleAppend([s[0]], CollapseWhitespace(s[1..]));
      }
    }
  }

  lemma {:induction false} DropSpaceAfterOpenVisible(s: string)
    ensures Visible(DropSpaceAfterOpen(s)) == Visible(s)
    decreases |s|
  {
    if |s| >= 2 && s[0] == '(' && s[1] == ' ' {
      DropSpaceAfterOpenVisible(s[2..]);
      assert s == "( " + s[2..];
      VisibleAppend("( ", s[2..]);
      VisibleAppend("(", DropSpaceAfterOpen(s[2..]));
    } else if |s| > 0 {
      DropSpaceAfterOpenVisible(s[1..]);
      assert s == [s[0]] + s[1..];
      VisibleAppend([s[0]], s[1..]);
      VisibleAppend([s[0]], DropSpaceAfterOpen(s[1..]));
    }
  }

  lemma {:induction false} DropSpaceBeforeCloseVisible(s: string)
    ensures Visible(DropSpaceBeforeClose(s)) == Visible(s)
    decreases |s|
  {
    if |s| >= 2 && s[0] == ' ' && s[1] == ')' {
      DropSpaceBeforeCloseVisible(s[2..]);
      assert s == " )" + s[2..];
      VisibleAppend(" )", s[2..]);
      VisibleAppend(")", DropSpaceBeforeClose(s[2..]));
    } else if |s| > 0 {
      DropSpaceBeforeCloseVisible(s[1..]);
      assert s == [s[0]] + s[1..];
      VisibleAppend([s[0]], s[1..]);
      VisibleAppend([s[0]], DropSpaceBeforeClose(s[1..]));
    }
  }

  lemma VisibleTrimmablePrefix(x: string, m: string)
    requires forall i :: 0 <= i < |x| ==> IsTrimmable(x[i])
    ensures Visible(x + m) == Visible(m)
  {
    VisibleOfTrimmable(x);
    VisibleAppend(x, m);
  }

  lemma VisibleTrimmableSuffix(m: string, y: string)
    requires forall i :: 0 <= i < |y| ==> IsTrimmable(y[i])
    ensures Visible(m + y) == Visible(m)
  {
    VisibleOfTrimmable(y);
    VisibleAppend(m, y);
  }

  lemma {:induction false} TrimStartVisible(s: string)
    ensures Visible(TrimStart(s)) == Visible(s)
  {
    if |s| > 0 && IsTrimmable(s[0]) {
      TrimStartVisible(s[1..]);
    }
  }

  lemma {:induction false} TrimEndVisible(s: string)
    ensures Visible(TrimEnd(s)) == Visible(s)
  {
    if |s| > 0 && IsTrimmable(s[|s| - 1]) {
      var p := s[..|s| - 1];
      TrimEndVisible(p);
      assert s == p + [s[|s| - 1]];
      VisibleAppend(p, [s[|s| - 1]]);
    }
  }

  lemma TrimVisible(s: string)
    ensures Visible(Trim(s)) == Visible(s)
  {
    TrimStartVisible(s);
    TrimEndVisible(TrimStart(s));
  }

  /** A whitespace run is never followed by a space once collapsed; the step after "(" keeps that. */
  lemma {:induction false} DropSpaceAfterOpenShape(s: string)
    requires OnlyPlainSpaces(s) && NoDoubleSpace(s)
    ensures var r := DropSpaceAfterOpen(s);
      OnlyPlainSpaces(r) && NoDoubleSpace(r) && NoSpaceAfterOpen(r)
    decreases |s|
  {
    if |s| >= 2 && s[0] == '(' && s[1] == ' ' {
      DropSpaceAfterOpenShape(s[2..]);
    } else if |s| > 0 {
      DropSpaceAfterOpenShape(s[1..]);
    }
  }

  lemma {:induction false} DropSpaceBeforeCloseShape(s: string)
    requires OnlyPlainSpaces(s) && NoDoubleSpace(s) && NoSpaceAfterOpen(s)
    ensures var r := DropSpaceBeforeClose(s);
      OnlyPlainSpaces(r) && NoDoubleSpace(r) && NoSpaceAfterOpen(r) && NoSpaceBeforeClose(r)
    decreases |s|
  {
    if |s| >= 2 && s[0] == ' ' && s[1] == ')' {
      DropSpaceBeforeCloseShape(s[2..]);
    } else if |s| > 0 {
      DropSpaceBeforeCloseShape(s[1..]);
    }
  }

  lemma TrimShape(s: string)
    requires OnlyPlainSpaces(s) && NoDoubleSpace(s) && NoSpaceAfterOpen(s) && NoSpaceBeforeClose(s)
    ensures Formatted(Trim(s))
  {
    var u := TrimStart(s);
    SuffixShape(s, u, |s| - |u|);
    var t := TrimEnd(u);
    PrefixShape(u, t);
    assert Trimmed(t) by {
      if |t| > 0 {
        assert t[0] == u[0];
      }
    }
  }

  /** A suffix keeps the spacing invariants of the whole. */
  lemma SuffixShape(s: string, u: string, k: nat)
    requires k <= |s| && u == s[k..]
    requires OnlyPlainSpaces(s) && NoDoubleSpace(s) && NoSpaceAfterOpen(s) && NoSpaceBeforeClose(s)
    ensures OnlyPlainSpaces(u) && NoDoubleSpace(u) && NoSpaceAfterOpen(u) && NoSpaceBeforeClose(u)
  {
    forall i | 0 <= i < |u| ensures u[i] == s[k + i] {
    }
  }

  /** A prefix keeps the spacing invariants of the whole. */
  lemma PrefixShape(u: string, t: string)
    requires |t| <= |u| && t == u[..|t|]
    requires OnlyPlainSpaces(u) && NoDoubleSpace(u) && NoSpaceAfterOpen(u) && NoSpaceBeforeClose(u)
    ensures OnlyPlainSpaces(t) && NoDoubleSpace(t) && NoSpaceAfterOpen(t) && NoSpaceBeforeClose(t)
  {
    forall i | 0 <= i < |t| ensures t[i] == u[i] {
    }
  }

  lemma {:induction false} CollapseIdentity(s: string)
    requires OnlyPlainSpaces(s) && NoDoubleSpace(s)
    ensures CollapseWhitespace(s) == s
    decreases |s|
  {
    if |s| > 0 {
      if IsRegexSpace(s[0]) {
        assert SkipSpaces(s) == s[1..];
      }
      CollapseIdentity(s[1..]);
    }
  }

  lemma {:induction false} DropSpaceAfterOpenIdentity(s: string)
    requires NoSpaceAfterOpen(s)
    ensures DropSpaceAfterOpen(s) == s
  {
    if |s| > 0 {
      DropSpaceAfterOpenIdentity(s[1..]);
    }
  }

  lemma {:induction false} DropSpaceBeforeCloseIdentity(s: string)
    requires NoSpaceBeforeClose(s)
    ensures DropSpaceBeforeClose(s) == s
  {
    if |s| > 0 {
      DropSpaceBeforeCloseIdentity(s[1..]);
    }
  }

  /** Formatting an already formatted query changes nothing. */
  lemma FormatQueryIdempotent(query: string)
    ensures FormatQuery(FormatQuery(query)) == FormatQuery(query)
  {
    FormattedFixed(FormatQuery(query));
  }

  /**
   * A query that is already formatted comes back unchanged, whatever
   * characters other than `\s` it holds, control characters included.
   */
  lemma FormattedFixed(query: string)
    requires Formatted(query)
    ensures FormatQuery(query) == query
  {
    CollapseIdentity(query);
    DropSpaceAfterOpenIdentity(query);
    DropSpaceBeforeCloseIdentity(query);
    TrimIdentity(query);
  }

  /** U+0001 is neither `\s` nor at an end, so `formatQuery` keeps it. */
  lemma FormatQueryKeepsControl()
    ensures FormatQuery("a\U{1} b") == "a\U{1} b"
  {
    FormattedFixed("a\U{1} b");
  }

  /** The expectations of TeradataUtilsTest for `formatQuery` on blank input. */
  lemma FormatQueryBlankExamples()
    ensures FormatQuery("") == ""
    ensures FormatQuery(" ") == ""
  {
    FormatQuerySingleSpace();
  }

  lemma FormatQuerySingleSpace()
    ensures FormatQuery(" ") == ""
  {
    assert CollapseWhitespace(" ") == " ";
    assert DropSpaceAfterOpen(" ") == " ";
    assert DropSpaceBeforeClose(" ") == " ";
  }

  // ---------------------------------------------------------------------
  // The exact result of formatQuery. Each pass works piece by piece: a
  // string splits wherever no match of its pattern straddles the cut. On a
  // query made of words separated by runs of whitespace, this fixes the
  // result: the words joined by single spaces, with no space after "(" or
  // before ")".

  /** A run of `\s` characters, possibly empty. */
  predicate IsBlank(w: string)
  {
    forall i :: 0 <= i < |w| ==> IsRegexSpace(w[i])
  }

  /** A nonempty run of characters that neither `\s` nor `trim` touches. */
  predicate IsWord(t: string)
  {
    |t| > 0 && forall i :: 0 <= i < |t| ==> !IsTrimmable(t[i])
  }

  lemma {:induction false} SkipSpacesAppend(a: string, b: string)
    ensures IsBlank(a) ==> SkipSpaces(a + b) == SkipSpaces(b)
    ensures !IsBlank(a) ==> SkipSpaces(a + b) == SkipSpaces(a) + b
    decreases |a|
  {
    if |a| == 0 {
      assert a + b == b;
    } else {
      assert (a + b)[0] == a[0] && (a + b)[1..] == a[1..] + b;
      if IsRegexSpace(a[0]) {
        SkipSpacesAppend(a[1..], b);
        if !IsBlank(a[1..]) {
          var i :| 0 <= i < |a[1..]| && !IsRegexSpace(a[1..][i]);
          assert !IsRegexSpace(a[i + 1]);
        } else {
          assert forall i :: 1 <= i < |a| ==> a[i] == a[1..][i - 1];
        }
      }
    }
  }

  /** `replaceAll("\\s+", " ")` turns a whole run of whitespace into one space. */
  lemma CollapseRun(w: string)
    requires |w| > 0 && IsBlank(w)
    ensures CollapseWhitespace(w) == " "
  {
  }

  /** A string without `\s` is left alone by `replaceAll("\\s+", " ")`. */
  lemma CollapseWord(t: string)
    requires IsWord(t)
    ensures CollapseWhitespace(t) == t
  {
    CollapseIdentity(t);
  }

  /** `replaceAll("\\s+", " ")` splits at any cut that does not fall inside a whitespace run. */
  lemma {:induction false} CollapseAppend(a: string, b: string)
    requires |a| == 0 || |b| == 0 || !IsRegexSpace(a[|a| - 1]) || !IsRegexSpace(b[0])
    ensures CollapseWhitespace(a + b) == CollapseWhitespace(a) + CollapseWhitespace(b)
    decreases |a|
  {
    if |a| == 0 {
      assert a + b == b;
    } else if |b| == 0 {
      assert a + b == a;
    } else if IsRegexSpace(a[0]) {
      assert (a + b)[0] == a[0];
      assert CollapseWhitespace(a + b) == " " + CollapseWhitespace(SkipSpaces(a + b));
      SkipSpacesAppend(a, b);
      if IsBlank(a) {
        assert IsRegexSpace(a[|a| - 1]);
        assert SkipSpaces(b) == b;
        CollapseRun(a);
      } else {
        var rest := SkipSpaces(a);
        assert rest[|rest| - 1] == a[|a| - 1];
        CollapseAppend(rest, b);
        Associate(" ", CollapseWhitespace(rest), CollapseWhitespace(b));
      }
    } else {
      var rest := a[1..];
      assert (a + b)[0] == a[0] && (a + b)[1..] == rest + b;
      assert |rest| > 0 ==> rest[|rest| - 1] == a[|a| - 1];
      CollapseAppend(rest, b);
      Associate([a[0]], CollapseWhitespace(rest), CollapseWhitespace(b));
    }
  }

  /** One character that does not start a "( " match passes through `replaceAll("\\( ", "(")`. */
  lemma DropSpaceAfterOpenChar(c: char, s: string)
    requires !(c == '(' && |s| > 0 && s[0] == ' ')
    ensures DropSpaceAfterOpen([c] + s) == [c] + DropSpaceAfterOpen(s)
  {
    assert ([c] + s)[1..] == s;
  }

  /** A "( " match becomes "(". */
  lemma DropSpaceAfterOpenPair(s: string)
    ensures DropSpaceAfterOpen("( " + s) == "(" + DropSpaceAfterOpen(s)
  {
    assert ("( " + s)[2..] == s;
  }

  /** One character that does not start a " )" match passes through `replaceAll(" \\)", ")")`. */
  lemma DropSpaceBeforeCloseChar(c: char, s: string)
    requires !(c == ' ' && |s| > 0 && s[0] == ')')
    ensures DropSpaceBeforeClose([c] + s) == [c] + DropSpaceBeforeClose(s)
  {
    assert ([c] + s)[1..] == s;
  }

  /** A " )" match becomes ")". */
  lemma DropSpaceBeforeClosePair(s: string)
    ensures DropSpaceBeforeClose(" )" + s) == ")" + DropSpaceBeforeClose(s)
  {
    assert (" )" + s)[2..] == s;
  }

  /** `replaceAll("\\( ", "(")` splits at any cut that does not separate "(" from the space after it. */
  lemma {:induction false} DropSpaceAfterOpenAppend(a: string, b: string)
    requires |a| == 0 || |b| == 0 || a[|a| - 1] != '(' || b[0] != ' '
    ensures DropSpaceAfterOpen(a + b) == DropSpaceAfterOpen(a) + DropSpaceAfterOpen(b)
    decreases |a|
  {
    if |a| == 0 {
      assert a + b == b;
    } else if |b| == 0 {
      assert a + b == a;
    } else if |a| >= 2 && a[0] == '(' && a[1] == ' ' {
      var r := a[2..];
      assert a == "( " + r && a + b == "( " + (r + b);
      assert |r| > 0 ==> r[|r| - 1] == a[|a| - 1];
      DropSpaceAfterOpenPair(r);
      DropSpaceAfterOpenPair(r + b);
      DropSpaceAfterOpenAppend(r, b);
      Associate("(", DropSpaceAfterOpen(r), DropSpaceAfterOpen(b));
    } else {
      var r := a[1..];
      assert a == [a[0]] + r && a + b == [a[0]] + (r + b);
      assert (r + b)[0] == if |r| > 0 then r[0] else b[0];
      assert |r| > 0 ==> r[|r| - 1] == a[|a| - 1];
      DropSpaceAfterOpenChar(a[0], r);
      DropSpaceAfterOpenChar(a[0], r + b);
      DropSpaceAfterOpenAppend(r, b);
      Associate([a[0]], DropSpaceAfterOpen(r), DropSpaceAfterOpen(b));
    }
  }

  /** `replaceAll(" \\)", ")")` splits at any cut that does not separate a space from the ")" after it. */
  lemma {:induction false} DropSpaceBeforeCloseAppend(a: string, b: string)
    requires |a| == 0 || |b| == 0 || a[|a| - 1] != ' ' || b[0] != ')'
    ensures DropSpaceBeforeClose(a + b) == DropSpaceBeforeClose(a) + DropSpaceBeforeClose(b)
    decreases |a|
  {
    if |a| == 0 {
      assert a + b == b;
    } else if |b| == 0 {
      assert a + b == a;
    } else if |a| >= 2 && a[0] == ' ' && a[1] == ')' {
      var r := a[2..];
      assert a == " )" + r && a + b == " )" + (r + b);
      assert |r| > 0 ==> r[|r| - 1] == a[|a| - 1];
      DropSpaceBeforeClosePair(r);
      DropSpaceBeforeClosePair(r + b);
      DropSpaceBeforeCloseAppend(r, b);
      Associate(")", DropSpaceBeforeClose(r), DropSpaceBeforeClose(b));
    } else {
      var r := a[1..];
      assert a == [a[0]] + r && a + b == [a[0]] + (r + b);
      assert (r + b)[0] == if |r| > 0 then r[0] else b[0];
      assert |r| > 0 ==> r[|r| - 1] == a[|a| - 1];
      DropSpaceBeforeCloseChar(a[0], r);
      DropSpaceBeforeCloseChar(a[0], r + b);
      DropSpaceBeforeCloseAppend(r, b);
      Associate([a[0]], DropSpaceBeforeClose(r), DropSpaceBeforeClose(b));
    }
  }

  lemma Associate(a: string, b: string, c: string)
    ensures (a + b) + c == a + (b + c)
  {
  }

  /** A word whose last character is "(". */
  predicate EndsOpen(t: string)
  {
    |t| > 0 && t[|t| - 1] == '('
  }

  /** A text whose first character is ")". */
  predicate StartsClose(t: string)
  {
    |t| > 0 && t[0] == ')'
  }

  /** A string with no character at or below U+0020 is left alone by all three replacements. */
  lemma WordIntact(t: string)
    requires forall i :: 0 <= i < |t| ==> !IsTrimmable(t[i])
    ensures CollapseWhitespace(t) == t
    ensures DropSpaceAfterOpen(t) == t
    ensures DropSpaceBeforeClose(t) == t
  {
    CollapseIdentity(t);
    DropSpaceAfterOpenIdentity(t);
    DropSpaceBeforeCloseIdentity(t);
  }

  /** The first pass on a word, a whitespace run and what follows: the run becomes one space. */
  lemma CollapseCons(t: string, g: string, rest: string)
    requires IsWord(t) && IsBlank(g)
    requires |rest| == 0 || (|g| > 0 && !IsRegexSpace(rest[0]))
    ensures CollapseWhitespace(t + (g + rest))
            == t + ((if |g| == 0 then "" else " ") + CollapseWhitespace(rest))
  {
    WordIntact(t);
    if |g| == 0 {
      assert g + rest == "" && CollapseWhitespace("") == "";
      assert t + (g + rest) == t && t + ("" + "") == t;
    } else {
      CollapseAppend(t, g + rest);
      CollapseAppend(g, rest);
      CollapseRun(g);
    }
  }

  /** Without a space after it, a word passes through the second pass whole. */
  lemma DropSpaceAfterOpenUnspaced(t: string, rest: string)
    requires IsWord(t)
    requires |rest| == 0 || rest[0] != ' '
    ensures DropSpaceAfterOpen(t + ("" + rest)) == t + ("" + DropSpaceAfterOpen(rest))
  {
    assert "" + rest == rest && "" + DropSpaceAfterOpen(rest) == DropSpaceAfterOpen(rest);
    WordIntact(t);
    DropSpaceAfterOpenAppend(t, rest);
  }

  /** A string is its prefix without the last character followed by that character. */
  lemma SplitLast(t: string)
    requires |t| > 0
    ensures t == t[..|t| - 1] + [t[|t| - 1]]
  {
  }

  lemma DropSpaceAfterOpenAfter(init: string, rest: string)
    requires DropSpaceAfterOpen(init) == init
    ensures DropSpaceAfterOpen((init + "(") + (" " + rest)) == (init + "(") + ("" + DropSpaceAfterOpen(rest))
  {
    var d := DropSpaceAfterOpen(rest);
    assert (init + "(") + (" " + rest) == init + ("( " + rest);
    DropSpaceAfterOpenAppend(init, "( " + rest);
    DropSpaceAfterOpenPair(rest);
    assert init + ("(" + d) == (init + "(") + ("" + d);
  }

  /** A space after a word ending in "(" is dropped. */
  lemma DropSpaceAfterWordOpen(t: string, rest: string)
    requires IsWord(t) && EndsOpen(t)
    ensures DropSpaceAfterOpen(t + (" " + rest)) == t + ("" + DropSpaceAfterOpen(rest))
  {
    var init := t[..|t| - 1];
    assert forall i :: 0 <= i < |init| ==> init[i] == t[i];
    WordIntact(init);
    SplitLast(t);
    DropSpaceAfterOpenAfter(init, rest);
  }

  /** A space after a word that does not end in "(" is kept. */
  lemma DropSpaceAfterOpenSpaced(t: string, rest: string)
    requires IsWord(t) && !EndsOpen(t)
    ensures DropSpaceAfterOpen(t + (" " + rest)) == t + (" " + DropSpaceAfterOpen(rest))
  {
    WordIntact(t);
    DropSpaceAfterOpenAppend(t, " " + rest);
    DropSpaceAfterOpenChar(' ', rest);
  }

  /** The second pass on a word, at most one space and what follows: the space goes after "(". */
  lemma DropSpaceAfterOpenCons(t: string, s: string, rest: string)
    requires IsWord(t) && (s == "" || s == " ")
    requires |rest| == 0 || rest[0] != ' '
    ensures DropSpaceAfterOpen(t + (s + rest))
            == t + ((if EndsOpen(t) then "" else s) + DropSpaceAfterOpen(rest))
  {
    if s == "" {
      DropSpaceAfterOpenUnspaced(t, rest);
    } else if EndsOpen(t) {
      DropSpaceAfterWordOpen(t, rest);
    } else {
      DropSpaceAfterOpenSpaced(t, rest);
    }
  }

  /** A space before the rest of the text survives the third pass unless the rest starts with ")". */
  lemma DropSpaceBeforeCloseSpace(d: string)
    ensures DropSpaceBeforeClose(" " + d)
            == (if StartsClose(d) then "" else " ") + DropSpaceBeforeClose(d)
  {
    if StartsClose(d) {
      var r := d[1..];
      assert d == ")" + r && " " + d == " )" + r;
      DropSpaceBeforeClosePair(r);
      DropSpaceBeforeCloseChar(')', r);
    } else {
      DropSpaceBeforeCloseChar(' ', d);
    }
  }

  lemma DropSpaceBeforeCloseUnspaced(t: string, rest: string)
    requires IsWord(t)
    ensures DropSpaceBeforeClose(t + ("" + rest)) == t + ("" + DropSpaceBeforeClose(rest))
  {
    assert "" + rest == rest && "" + DropSpaceBeforeClose(rest) == DropSpaceBeforeClose(rest);
    WordIntact(t);
    DropSpaceBeforeCloseAppend(t, rest);
  }

  lemma DropSpaceBeforeCloseSpaced(t: string, rest: string)
    requires IsWord(t)
    ensures DropSpaceBeforeClose(t + (" " + rest))
            == t + ((if StartsClose(rest) then "" else " ") + DropSpaceBeforeClose(rest))
  {
    WordIntact(t);
    DropSpaceBeforeCloseAppend(t, " " + rest);
    DropSpaceBeforeCloseSpace(rest);
  }

  /** The third pass on a word, at most one space and what follows: the space goes before ")". */
  lemma DropSpaceBeforeCloseCons(t: string, s: string, rest: string)
    requires IsWord(t) && (s == "" || s == " ")
    ensures DropSpaceBeforeClose(t + (s + rest))
            == t + ((if StartsClose(rest) then "" else s) + DropSpaceBeforeClose(rest))
  {
    if s == "" {
      DropSpaceBeforeCloseUnspaced(t, rest);
    } else {
      DropSpaceBeforeCloseSpaced(t, rest);
    }
  }

  /** The three replacements of `formatQuery`, before `trim`. */
  function Passes(s: string): string
  {
    DropSpaceBeforeClose(DropSpaceAfterOpen(CollapseWhitespace(s)))
  }

  /** What the passes leave between a word and the text after its whitespace run. */
  function Gap(t: string, g: string, rest: string): string
  {
    if |g| == 0 || EndsOpen(t) || StartsClose(rest) then "" else " "
  }

  /** The passes on a word, its whitespace run and the text after it. */
  lemma PassesCons(t: string, g: string, rest: string)
    requires IsWord(t) && IsBlank(g)
    requires |rest| == 0 || (|g| > 0 && !IsTrimmable(rest[0]))
    ensures Passes(t + (g + rest)) == t + (Gap(t, g, rest) + Passes(rest))
  {
    var c := CollapseWhitespace(rest);
    CollapseCons(t, g, rest);
    if |rest| > 0 {
      assert c[0] == rest[0];
    }
    var s := if |g| == 0 then "" else " ";
    DropSpaceAfterOpenCons(t, s, c);
    var d := DropSpaceAfterOpen(c);
    assert StartsClose(d) == StartsClose(rest);
    DropSpaceBeforeCloseCons(t, if EndsOpen(t) then "" else s, d);
  }

  /** No whitespace before the first word leaves anything but at most one space. */
  lemma PassesLead(lead: string, rest: string)
    requires IsBlank(lead)
    requires |rest| == 0 || !IsTrimmable(rest[0])
    ensures Passes(lead + rest) == (if |lead| == 0 || StartsClose(rest) then "" else " ") + Passes(rest)
  {
    if |lead| == 0 {
      assert lead + rest == rest;
    } else {
      var c := CollapseWhitespace(rest);
      CollapseAppend(lead, rest);
      CollapseRun(lead);
      if |rest| > 0 {
        assert c[0] == rest[0];
      }
      DropSpaceAfterOpenChar(' ', c);
      DropSpaceBeforeCloseSpace(DropSpaceAfterOpen(c));
    }
  }

  /** A word followed by the whitespace run after it. */
  datatype Piece = Piece(word: string, gap: string)

  /** The query text the pieces make. */
  function Layout(pieces: seq<Piece>): string
  {
    if |pieces| == 0 then "" else pieces[0].word + (pieces[0].gap + Layout(pieces[1..]))
  }

  function Words(pieces: seq<Piece>): (r: seq<string>)
    ensures |r| == |pieces|
    ensures forall i :: 0 <= i < |r| ==> r[i] == pieces[i].word
  {
    if |pieces| == 0 then [] else [pieces[0].word] + Words(pieces[1..])
  }

  /** Words separated by nonempty whitespace runs; the last run may be empty. */
  predicate WellSpaced(pieces: seq<Piece>)
  {
    |pieces| == 0 ||
    (IsWord(pieces[0].word) && IsBlank(pieces[0].gap) && (|pieces| > 1 ==> |pieces[0].gap| > 0) &&
     WellSpaced(pieces[1..]))
  }

  /** What `Glue` puts between a word and the next. */
  function Sep(left: string, right: string): string
  {
    if EndsOpen(left) || StartsClose(right) then "" else " "
  }

  /**
   * The reference result: the words joined by single spaces, except that no
   * space follows a word ending in "(" and none precedes a word starting with ")".
   */
  function Glue(words: seq<string>): string
  {
    if |words| == 0 then ""
    else if |words| == 1 then words[0]
    else words[0] + (Sep(words[0], words[1]) + Glue(words[1..]))
  }

  /** The space, if any, the passes leave after the last word. */
  function Trail(pieces: seq<Piece>): (r: string)
    ensures r == "" || r == " "
  {
    if |pieces| == 0 then ""
    else if |pieces| == 1 then Gap(pieces[0].word, pieces[0].gap, "")
    else Trail(pieces[1..])
  }

  lemma LayoutHead(pieces: seq<Piece>)
    requires WellSpaced(pieces) && |pieces| > 0
    ensures |Layout(pieces)| > 0 && Layout(pieces)[0] == pieces[0].word[0]
  {
  }

  lemma Reassociate(a: string, b: string, c: string, d: string)
    ensures a + (b + (c + d)) == (a + (b + c)) + d
  {
  }

  lemma PassesLastPiece(t: string, g: string)
    requires IsWord(t) && IsBlank(g)
    ensures Passes(t + (g + "")) == t + Gap(t, g, "")
  {
    PassesCons(t, g, "");
    assert Passes("") == "";
  }

  lemma {:induction false} PassesLayout(pieces: seq<Piece>)
    requires WellSpaced(pieces)
    ensures Passes(Layout(pieces)) == Glue(Words(pieces)) + Trail(pieces)
  {
    if |pieces| == 0 {
      assert Passes("") == "";
    } else if |pieces| == 1 {
      assert Layout(pieces[1..]) == "";
      PassesLastPiece(pieces[0].word, pieces[0].gap);
    } else {
      var t, g, rest := pieces[0].word, pieces[0].gap, pieces[1..];
      var r := Layout(rest);
      PassesLayout(rest);
      LayoutHead(rest);
      PassesCons(t, g, r);
      assert Words(pieces)[1..] == Words(rest);
      Reassociate(t, Sep(t, rest[0].word), Glue(Words(rest)), Trail(rest));
    }
  }

  lemma {:induction false} GlueEnds(pieces: seq<Piece>)
    requires WellSpaced(pieces) && |pieces| > 0
    ensures |Glue(Words(pieces))| > 0
    ensures Glue(Words(pieces))[0] == pieces[0].word[0]
    ensures !IsTrimmable(Glue(Words(pieces))[|Glue(Words(pieces))| - 1])
  {
    if |pieces| > 1 {
      GlueEnds(pieces[1..]);
      assert Words(pieces)[1..] == Words(pieces[1..]);
    }
  }

  lemma TrimStartSpace(a: string, m: string)
    requires a == "" || a == " "
    requires |m| > 0 && !IsTrimmable(m[0])
    ensures TrimStart(a + m) == m
  {
    if a == " " {
      assert (a + m)[0] == ' ' && (a + m)[1..] == m;
    } else {
      assert a + m == m;
    }
  }

  lemma TrimEndSpace(m: string, b: string)
    requires b == "" || b == " "
    requires |m| > 0 && !IsTrimmable(m[|m| - 1])
    ensures TrimEnd(m + b) == m
  {
    if b == " " {
      assert (m + b)[|m + b| - 1] == ' ' && (m + b)[..|m + b| - 1] == m;
    } else {
      assert m + b == m;
    }
  }

  /** `trim` removes at most one space on each side and nothing of a middle with untrimmable ends. */
  lemma TrimAround(a: string, m: string, b: string)
    requires a == "" || a == " "
    requires b == "" || b == " "
    requires |m| > 0 && !IsTrimmable(m[0]) && !IsTrimmable(m[|m| - 1])
    ensures Trim(a + (m + b)) == m
  {
    assert (m + b)[0] == m[0];
    TrimStartSpace(a, m + b);
    TrimEndSpace(m, b);
  }

  lemma FormatQueryPasses(query: string)
    ensures FormatQuery(query) == Trim(Passes(query))
  {
  }

  /** When the passes leave a middle with untrimmable ends and at most a space on each side, `formatQuery` is that middle. */
  lemma FormatQueryOfPasses(query: string, a: string, m: string, b: string)
    requires a == "" || a == " "
    requires b == "" || b == " "
    requires |m| > 0 && !IsTrimmable(m[0]) && !IsTrimmable(m[|m| - 1])
    requires Passes(query) == a + (m + b)
    ensures FormatQuery(query) == m
  {
    FormatQueryPasses(query);
    TrimAround(a, m, b);
  }

  /** The passes on leading whitespace and a layout of at least one word. */
  lemma PassesLeadLayout(lead: string, pieces: seq<Piece>)
    requires IsBlank(lead) && WellSpaced(pieces) && |pieces| > 0
    ensures Passes(lead + Layout(pieces))
            == (if |lead| == 0 || StartsClose(pieces[0].word) then "" else " ")
               + (Glue(Words(pieces)) + Trail(pieces))
  {
    LayoutHead(pieces);
    PassesLead(lead, Layout(pieces));
    PassesLayout(pieces);
  }

  /** A query of whitespace only formats to the empty string. */
  lemma FormatQueryBlank(lead: string)
    requires IsBlank(lead)
    ensures FormatQuery(lead + Layout([])) == ""
  {
    assert lead + Layout([]) == lead + "";
    PassesLead(lead, "");
    FormatQueryPasses(lead + "");
  }

  /**
   * `formatQuery` on a query of words separated by whitespace runs, with
   * whitespace allowed at both ends: the words joined by single spaces, with
   * none after "(" or before ")".
   */
  lemma FormatQueryLayout(lead: string, pieces: seq<Piece>)
    requires IsBlank(lead) && WellSpaced(pieces)
    ensures FormatQuery(lead + Layout(pieces)) == Glue(Words(pieces))
  {
    if |pieces| == 0 {
      FormatQueryBlank(lead);
    } else {
      var query := lead + Layout(pieces);
      var m := Glue(Words(pieces));
      PassesLeadLayout(lead, pieces);
      GlueEnds(pieces);
      assert !IsTrimmable(m[0]) by {
        assert IsWord(pieces[0].word);
      }
      FormatQueryOfPasses(query, if |lead| == 0 || StartsClose(pieces[0].word) then "" else " ", m, Trail(pieces));
    }
  }


  /** `formatQuery` on two words around a whitespace run: the words joined by one space. */
  lemma FormatTwoWords(a: string, w: string, b: string)
    requires IsWord(a) && IsWord(b) && IsBlank(w) && |w| > 0
    requires !EndsOpen(a) && !StartsClose(b)
    ensures FormatQuery(a + w + b) == a + " " + b
  {
    var pieces := [Piece(a, w), Piece(b, "")];
    assert pieces[1..] == [Piece(b, "")] && pieces[1..][1..] == [];
    assert Layout(pieces[1..][1..]) == "";
    assert Layout(pieces[1..]) == b;
    assert Layout(pieces) == a + (w + b);
    assert "" + Layout(pieces) == a + w + b;
    assert Words(pieces) == [a, b] && [a, b][1..] == [b];
    FormatQueryLayout("", pieces);
  }

  lemma {:induction false} LayoutAppend(p: seq<Piece>, q: seq<Piece>)
    ensures Layout(p + q) == Layout(p) + Layout(q)
  {
    if |p| == 0 {
      assert p + q == q;
    } else {
      assert (p + q)[0] == p[0] && (p + q)[1..] == p[1..] + q;
      LayoutAppend(p[1..], q);
    }
  }

  lemma {:induction false} WordsAppend(p: seq<Piece>, q: seq<Piece>)
    ensures Words(p + q) == Words(p) + Words(q)
  {
    if |p| == 0 {
      assert p + q == q;
    } else {
      assert (p + q)[0] == p[0] && (p + q)[1..] == p[1..] + q;
      WordsAppend(p[1..], q);
    }
  }

  lemma {:induction false} WellSpacedAppend(p: seq<Piece>, q: seq<Piece>)
    requires WellSpaced(p) && WellSpaced(q)
    requires |p| > 0 && |q| > 0 ==> |p[|p| - 1].gap| > 0
    ensures WellSpaced(p + q)
  {
    if |p| == 0 {
      assert p + q == q;
    } else if |q| == 0 {
      assert p + q == p;
    } else {
      assert (p + q)[0] == p[0] && (p + q)[1..] == p[1..] + q;
      WellSpacedAppend(p[1..], q);
    }
  }

  /** Gluing two nonempty lists of words puts one separator between them. */
  lemma {:induction false} GlueAppend(w: seq<string>, v: seq<string>)
    requires |w| > 0 && |v| > 0
    ensures Glue(w + v) == Glue(w) + (Sep(w[|w| - 1], v[0]) + Glue(v))
  {
    if |w| == 1 {
      assert (w + v)[0] == w[0] && (w + v)[1..] == v && (w + v)[1] == v[0];
    } else {
      assert (w + v)[0] == w[0] && (w + v)[1..] == w[1..] + v && (w + v)[1] == w[1];
      assert w[1..][|w| - 2] == w[|w| - 1];
      GlueAppend(w[1..], v);
      Reassociate(w[0], Sep(w[0], w[1]), Glue(w[1..]), Sep(w[|w| - 1], v[0]) + Glue(v));
    }
  }

  // The expectations of TeradataUtilsTest for `formatQuery` on whole queries. Each
  // query is cut into words and the whitespace after them; the longest one is
  // written as the concatenation of four literals.

  const SelectOnePieces: seq<Piece> := [Piece("SELECT", "      "), Piece("1", "     ")]

  lemma SelectOnePiecesSpaced()
    ensures WellSpaced(SelectOnePieces)
  {
  }

  lemma SelectOnePiecesText()
    ensures "  " + Layout(SelectOnePieces) == "  SELECT      1     "
  {
  }

  lemma SelectOnePiecesWords()
    ensures Words(SelectOnePieces) == ["SELECT", "1"]
  {
  }

  lemma SelectOnePiecesGlue()
    ensures Glue(["SELECT", "1"]) == "SELECT 1"
  {
    var w := ["SELECT", "1"];
    assert Glue(w[1..]) == "1";
    assert w[0..][0] == w[0] && w[0..][1] == w[1] && w[0..][1..] == w[1..];
    assert Glue(w[0..]) == "SELECT 1";
    assert w[0..] == w;
  }

  /** TeradataUtilsTest.formatQuery_multipleSpacesInQuery. */
  lemma FormatQuerySelectOne()
    ensures FormatQuery("  SELECT      1     ") == "SELECT 1"
  {
    SelectOnePiecesSpaced();
    SelectOnePiecesText();
    SelectOnePiecesWords();
    SelectOnePiecesGlue();
    assert IsBlank("  ");
    FormatQueryLayout("  ", SelectOnePieces);
  }

  const SelectParensPieces: seq<Piece> := [Piece("SELECT", "  "), Piece("(", " "), Piece("2", " "), Piece("+", " "), Piece("N", " "), Piece(")", "     ")]

  lemma SelectParensPiecesSpaced()
    ensures WellSpaced(SelectParensPieces)
  {
  }

  lemma SelectParensPiecesText()
    ensures "  " + Layout(SelectParensPieces) == "  SELECT  ( 2 + N )     "
  {
  }

  lemma SelectParensPiecesWords()
    ensures Words(SelectParensPieces) == ["SELECT", "(", "2", "+", "N", ")"]
  {
  }

  lemma SelectParensPiecesGlue()
    ensures Glue(["SELECT", "(", "2", "+", "N", ")"]) == "SELECT (2 + N)"
  {
    var w := ["SELECT", "(", "2", "+", "N", ")"];
    assert Glue(w[5..]) == ")";
    assert w[4..][0] == w[4] && w[4..][1] == w[5] && w[4..][1..] == w[5..];
    assert Glue(w[4..]) == "N)";
    assert w[3..][0] == w[3] && w[3..][1] == w[4] && w[3..][1..] == w[4..];
    assert Glue(w[3..]) == "+ N)";
    assert w[2..][0] == w[2] && w[2..][1] == w[3] && w[2..][1..] == w[3..];
    assert Glue(w[2..]) == "2 + N)";
    assert w[1..][0] == w[1] && w[1..][1] == w[2] && w[1..][1..] == w[2..];
    assert Glue(w[1..]) == "(2 + N)";
    assert w[0..][0] == w[0] && w[0..][1] == w[1] && w[0..][1..] == w[1..];
    assert Glue(w[0..]) == "SELECT (2 + N)";
    assert w[0..] == w;
  }

  /** TeradataUtilsTest.formatQuery_spacesInsideParentheses. */
  lemma FormatQuerySelectParens()
    ensures FormatQuery("  SELECT  ( 2 + N )     ") == "SELECT (2 + N)"
  {
    SelectParensPiecesSpaced();
    SelectParensPiecesText();
    SelectParensPiecesWords();
    SelectParensPiecesGlue();
    assert IsBlank("  ");
    FormatQueryLayout("  ", SelectParensPieces);
  }

  const SelectNestedChunk1: seq<Piece> := [Piece("SELECT", "  "), Piece("(", " "), Piece("2", " "), Piece("+", " "), Piece("N", " "), Piece("+", " ")]
  const SelectNestedChunk2: seq<Piece> := [Piece("(", " "), Piece("3", " "), Piece("+", " "), Piece("N", " "), Piece("+", " ")]
  const SelectNestedChunk3: seq<Piece> := [Piece("(", " "), Piece("N", " "), Piece("+", "    "), Piece("N", " ")]
  const SelectNestedChunk4: seq<Piece> := [Piece(")", "  "), Piece(")", "  "), Piece(")", "    ")]
  const SelectNestedPieces: seq<Piece> := SelectNestedChunk1 + (SelectNestedChunk2 + (SelectNestedChunk3 + (SelectNestedChunk4)))

  lemma SelectNestedChunk1Spaced()
    ensures WellSpaced(SelectNestedChunk1)
  {
  }

  lemma SelectNestedChunk1Text()
    ensures "  " + Layout(SelectNestedChunk1) == "  SELECT  ( 2 + N + "
  {
  }

  lemma SelectNestedChunk1Words()
    ensures Words(SelectNestedChunk1) == ["SELECT", "(", "2", "+", "N", "+"]
  {
  }

  lemma SelectNestedChunk1Glue()
    ensures Glue(["SELECT", "(", "2", "+", "N", "+"]) == "SELECT (2 + N +"
  {
    var w := ["SELECT", "(", "2", "+", "N", "+"];
    assert Glue(w[5..]) == "+";
    assert w[4..][0] == w[4] && w[4..][1] == w[5] && w[4..][1..] == w[5..];
    assert Glue(w[4..]) == "N +";
    assert w[3..][0] == w[3] && w[3..][1] == w[4] && w[3..][1..] == w[4..];
    assert Glue(w[3..]) == "+ N +";
    assert w[2..][0] == w[2] && w[2..][1] == w[3] && w[2..][1..] == w[3..];
    assert Glue(w[2..]) == "2 + N +";
    assert w[1..][0] == w[1] && w[1..][1] == w[2] && w[1..][1..] == w[2..];
    assert Glue(w[1..]) == "(2 + N +";
    assert w[0..][0] == w[0] && w[0..][1] == w[1] && w[0..][1..] == w[1..];
    assert Glue(w[0..]) == "SELECT (2 + N +";
    assert w[0..] == w;
  }

  lemma SelectNestedChunk2Spaced()
    ensures WellSpaced(SelectNestedChunk2)
  {
  }

  lemma SelectNestedChunk2Text()
    ensures Layout(SelectNestedChunk2) == "( 3 + N + "
  {
  }

  lemma SelectNestedChunk2Words()
    ensures Words(SelectNestedChunk2) == ["(", "3", "+", "N", "+"]
  {
  }

  lemma SelectNestedChunk2Glue()
    ensures Glue(["(", "3", "+", "N", "+"]) == "(3 + N +"
  {
    var w := ["(", "3", "+", "N", "+"];
    assert Glue(w[4..]) == "+";
    assert w[3..][0] == w[3] && w[3..][1] == w[4] && w[3..][1..] == w[4..];
    assert Glue(w[3..]) == "N +";
    assert w[2..][0] == w[2] && w[2..][1] == w[3] && w[2..][1..] == w[3..];
    assert Glue(w[2..]) == "+ N +";
    assert w[1..][0] == w[1] && w[1..][1] == w[2] && w[1..][1..] == w[2..];
    assert Glue(w[1..]) == "3 + N +";
    assert w[0..][0] == w[0] && w[0..][1] == w[1] && w[0..][1..] == w[1..];
    assert Glue(w[0..]) == "(3 + N +";
    assert w[0..] == w;
  }

  lemma SelectNestedChunk3Spaced()
    ensures WellSpaced(SelectNestedChunk3)
  {
  }

  lemma SelectNestedChunk3Text()
    ensures Layout(SelectNestedChunk3) == "( N +    N "
  {
  }

  lemma SelectNestedChunk3Words()
    ensures Words(SelectNestedChunk3) == ["(", "N", "+", "N"]
  {
  }

  lemma SelectNestedChunk3Glue()
    ensures Glue(["(", "N", "+", "N"]) == "(N + N"
  {
    var w := ["(", "N", "+", "N"];
    assert Glue(w[3..]) == "N";
    assert w[2..][0] == w[2] && w[2..][1] == w[3] && w[2..][1..] == w[3..];
    assert Glue(w[2..]) == "+ N";
    assert w[1..][0] == w[1] && w[1..][1] == w[2] && w[1..][1..] == w[2..];
    assert Glue(w[1..]) == "N + N";
    assert w[0..][0] == w[0] && w[0..][1] == w[1] && w[0..][1..] == w[1..];
    assert Glue(w[0..]) == "(N + N";
    assert w[0..] == w;
  }

  lemma SelectNestedChunk4Spaced()
    ensures WellSpaced(SelectNestedChunk4)
  {
  }

  lemma SelectNestedChunk4Text()
    ensures Layout(SelectNestedChunk4) == ")  )  )    "
  {
  }

  lemma SelectNestedChunk4Words()
    ensures Words(SelectNestedChunk4) == [")", ")", ")"]
  {
  }

  lemma SelectNestedChunk4Glue()
    ensures Glue([")", ")", ")"]) == ")))"
  {
    var w := [")", ")", ")"];
    assert Glue(w[2..]) == ")";
    assert w[1..][0] == w[1] && w[1..][1] == w[2] && w[1..][1..] == w[2..];
    assert Glue(w[1..]) == "))";
    assert w[0..][0] == w[0] && w[0..][1] == w[1] && w[0..][1..] == w[1..];
    assert Glue(w[0..]) == ")))";
    assert w[0..] == w;
  }

  lemma SelectNestedSpaced()
    ensures WellSpaced(SelectNestedPieces)
  {
    var c1, c2, c3, c4 := SelectNestedChunk1, SelectNestedChunk2, SelectNestedChunk3, SelectNestedChunk4;
    SelectNestedChunk1Spaced();
    SelectNestedChunk2Spaced();
    SelectNestedChunk3Spaced();
    SelectNestedChunk4Spaced();
    WellSpacedAppend(c3, c4);
    WellSpacedAppend(c2, c3 + c4);
    WellSpacedAppend(c1, c2 + (c3 + c4));
  }

  lemma SelectNestedText()
    ensures "  " + Layout(SelectNestedPieces)
            == "  SELECT  ( 2 + N + " + "( 3 + N + " + "( N +    N " + ")  )  )    "
  {
    var c1, c2, c3, c4 := SelectNestedChunk1, SelectNestedChunk2, SelectNestedChunk3, SelectNestedChunk4;
    SelectNestedChunk1Text();
    SelectNestedChunk2Text();
    SelectNestedChunk3Text();
    SelectNestedChunk4Text();
    LayoutAppend(c3, c4);
    LayoutAppend(c2, c3 + c4);
    LayoutAppend(c1, c2 + (c3 + c4));
    Reassociate("  " + Layout(c1), Layout(c2), Layout(c3), Layout(c4));
  }

  lemma SelectNestedGlue()
    ensures Glue(Words(SelectNestedPieces)) == "SELECT (2 + N + " + "(3 + N + " + "(N + N" + ")))"
  {
    var c1, c2, c3, c4 := SelectNestedChunk1, SelectNestedChunk2, SelectNestedChunk3, SelectNestedChunk4;
    SelectNestedChunk1Words();
    SelectNestedChunk2Words();
    SelectNestedChunk3Words();
    SelectNestedChunk4Words();
    WordsAppend(c3, c4);
    WordsAppend(c2, c3 + c4);
    WordsAppend(c1, c2 + (c3 + c4));
    var w1, w2, w3, w4 := Words(c1), Words(c2), Words(c3), Words(c4);
    SelectNestedChunk1Glue();
    SelectNestedChunk2Glue();
    SelectNestedChunk3Glue();
    SelectNestedChunk4Glue();
    GlueAppend(w3, w4);
    GlueAppend(w2, w3 + w4);
    GlueAppend(w1, w2 + (w3 + w4));
    assert (w3 + w4)[0] == "(" && (w2 + (w3 + w4))[0] == "(";
    SelectNestedGlueSplit();
  }

  lemma SelectNestedGlueSplit()
    ensures "SELECT (2 + N +" + (" " + ("(3 + N +" + (" " + ("(N + N" + ("" + ")))")))))
            == "SELECT (2 + N + " + "(3 + N + " + "(N + N" + ")))"
  {
    assert "SELECT (2 + N +" + " " == "SELECT (2 + N + ";
    assert "(3 + N +" + " " == "(3 + N + ";
    assert "" + ")))" == ")))";
  }

  /** TeradataUtilsTest.formatQuery_spacesInsideMultipleParentheses. */
  lemma FormatQuerySelectNested()
    ensures FormatQuery("  SELECT  ( 2 + N + " + "( 3 + N + " + "( N +    N " + ")  )  )    ")
            == "SELECT (2 + N + " + "(3 + N + " + "(N + N" + ")))"
  {
    SelectNestedSpaced();
    SelectNestedText();
    SelectNestedGlue();
    assert IsBlank("  ");
    FormatQueryLayout("  ", SelectNestedPieces);
  }

  // ---------------------------------------------------------------------
  // determineTransactionMode

  /** `VALID_TRANSACTION_MODES`, in the order its `toString` lists them. */
  const ValidTransactionModes: seq<string> := ["ANSI", "TERA", "DEFAULT", "NONE"]

  /** `MetadataDumperUsageException` and Guava's `IllegalArgumentException`, with their messages. */
  datatype Failure = UsageError(message: string) | IllegalArgument(message: string)

  /** Membership in `VALID_TRANSACTION_MODES`. */
  predicate IsValidMode(m: string)
    ensures IsValidMode(m) <==> m in ValidTransactionModes
  {
    m == "ANSI" || m == "TERA" || m == "DEFAULT" || m == "NONE"
  }

  /** `mode.trim().toUpperCase()`. */
  function NormaliseMode(mode: string): string
  {
    ToUpperAscii(Trim(mode))
  }

  /** The text of the exception thrown for an unsupported mode; it quotes the input as given. */
  function UnsupportedModeMessage(mode: string): string
  {
    "Unsupported transaction mode='" + mode + "', supported modes='["
      + Join(ValidTransactionModes, ", ") + "]'."
  }

  /**
   * `TeradataUtils.determineTransactionMode`: no mode means ANSI; a mode that
   * normalises to one of the four valid names is accepted, NONE meaning "no
   * mode"; anything else is a usage error quoting the original text.
   */
  function DetermineTransactionMode(mode: Option<string>): (r: Result<Option<string>, Failure>)
    ensures mode.None? ==> r == Ok(Some("ANSI"))
    ensures mode.Some? ==> (r.Err? <==> !IsValidMode(NormaliseMode(mode.value)))
    ensures mode.Some? && r.Err? ==> r.error == UsageError(UnsupportedModeMessage(mode.value))
    ensures mode.Some? ==> (r == Ok(None) <==> NormaliseMode(mode.value) == "NONE")
    ensures r.Ok? && r.value.Some? ==>
      IsValidMode(r.value.value) && r.value.value != "NONE"
      && (mode.Some? ==> r.value.value == NormaliseMode(mode.value))
  {
    match mode
    case None => Ok(Some("ANSI"))
    case Some(m) =>
      var processed := NormaliseMode(m);
      if !IsValidMode(processed) then Err(UsageError(UnsupportedModeMessage(m)))
      else if processed == "NONE" then Ok(None)
      else Ok(Some(processed))
  }

  lemma UpperIdentity(m: string)
    requires forall i :: 0 <= i < |m| ==> 'A' <= m[i] <= 'Z'
    ensures ToUpperAscii(m) == m
  {
    var u := ToUpperAscii(m);
    assert forall i :: 0 <= i < |m| ==> u[i] == m[i];
  }

  /** A valid mode name is already in normal form. */
  lemma NormaliseValid(m: string)
    requires IsValidMode(m)
    ensures NormaliseMode(m) == m
  {
    var t := Trim(m);
    assert t == m by { TrimIdentity(m); }
    UpperIdentity(m);
  }

  /** A valid mode other than NONE is returned as given. */
  lemma ValidModeReturned(m: string)
    requires IsValidMode(m) && m != "NONE"
    ensures DetermineTransactionMode(Some(m)) == Ok(Some(m))
  {
    NormaliseValid(m);
  }

  /** A determined mode, given back on the command line, determines itself. */
  lemma TransactionModeStable(mode: Option<string>)
    requires DetermineTransactionMode(mode).Ok? && DetermineTransactionMode(mode).value.Some?
    ensures var m := DetermineTransactionMode(mode).value;
      DetermineTransactionMode(m) == Ok(m)
  {
    var m := DetermineTransactionMode(mode).value.value;
    NormaliseValid(m);
  }

  lemma TrimTera()
    ensures Trim(" tera ") == "tera"
  {
    assert TrimStart(" tera ") == "tera " by {
      assert " tera "[1..] == "tera ";
    }
    assert TrimEnd("tera ") == "tera" by {
      assert "tera "[..4] == "tera";
    }
  }

  lemma UpperTera()
    ensures ToUpperAscii("tera") == "TERA"
  {
    var u := ToUpperAscii("tera");
    assert u[0] == 'T' && u[1] == 'E' && u[2] == 'R' && u[3] == 'A';
  }

  lemma NormaliseTera()
    ensures NormaliseMode(" tera ") == "TERA"
  {
    TrimTera();
    UpperTera();
  }

  lemma NormaliseNone()
    ensures NormaliseMode("none") == "NONE"
  {
    var t := Trim("none");
    assert t == "none" by { TrimIdentity("none"); }
    var u := ToUpperAscii(t);
    assert u[0] == 'N' && u[1] == 'O' && u[2] == 'N' && u[3] == 'E';
    assert u == "NONE";
  }

  lemma NormaliseFast()
    ensures NormaliseMode("fast") == "FAST"
  {
    var t := Trim("fast");
    assert t == "fast" by { TrimIdentity("fast"); }
    var u := ToUpperAscii(t);
    assert u[0] == 'F' && u[1] == 'A' && u[2] == 'S' && u[3] == 'T';
    assert u == "FAST";
  }

  /** Normalisation ignores surrounding blanks and letter case. */
  lemma TransactionModeNormalises()
    ensures DetermineTransactionMode(Some(" tera ")) == Ok(Some("TERA"))
    ensures DetermineTransactionMode(Some("none")) == Ok(None)
  {
    NormaliseTera();
    NormaliseNone();
  }

  lemma JoinValidModes()
    ensures Join(ValidTransactionModes, ", ") == "ANSI, TERA, DEFAULT, NONE"
  {
    JoinCons("DEFAULT", ["NONE"], ", ");
    assert ["DEFAULT"] + ["NONE"] == ["DEFAULT", "NONE"];
    JoinCons("TERA", ["DEFAULT", "NONE"], ", ");
    assert ["TERA"] + ["DEFAULT", "NONE"] == ["TERA", "DEFAULT", "NONE"];
    JoinCons("ANSI", ["TERA", "DEFAULT", "NONE"], ", ");
    assert ["ANSI"] + ["TERA", "DEFAULT", "NONE"] == ValidTransactionModes;
  }

  /** The message for "fast" lists the valid modes as TeradataUtilsTest expects. */
  lemma UnsupportedModeExample()
    ensures DetermineTransactionMode(Some("fast")) == Err(UsageError(UnsupportedModeMessage("fast")))
    ensures Join(ValidTransactionModes, ", ") == "ANSI, TERA, DEFAULT, NONE"
  {
    NormaliseFast();
    JoinValidModes();
  }

  /** TeradataUtilsTest: TERA, ANSI and DEFAULT are returned as given, NONE gives no mode. */
  lemma TransactionModeExamples()
    ensures DetermineTransactionMode(Some("TERA")) == Ok(Some("TERA"))
    ensures DetermineTransactionMode(Some("ANSI")) == Ok(Some("ANSI"))
    ensures DetermineTransactionMode(Some("DEFAULT")) == Ok(Some("DEFAULT"))
    ensures DetermineTransactionMode(Some("NONE")) == Ok(None)
    ensures DetermineTransactionMode(None) == Ok(Some("ANSI"))
  {
    ValidModeReturned("TERA");
    ValidModeReturned("ANSI");
    ValidModeReturned("DEFAULT");
    NormaliseValid("NONE");
  }

  // ---------------------------------------------------------------------
  // createTimestampExpression

  const AtUtcSuffix: string := " AT TIME ZONE INTERVAL '0:00' HOUR TO MINUTE AS \""

  /**
   * The private `createTimestampExpression(Optional<String>, String)`: the
   * column name is checked first, then the alias; the expression reads the
   * (optionally qualified) column at UTC and names the result after the column.
   */
  function TimestampExpression(tableAlias: Option<string>, columnName: string): (r: Result<string, Failure>)
    ensures columnName == [] ==> r == Err(IllegalArgument("Column name must not be empty."))
    ensures columnName != [] && tableAlias == Some([]) ==> r == Err(IllegalArgument("Alias must not be empty."))
    ensures r.Ok? <==> columnName != [] && tableAlias != Some([])
    ensures r.Ok? ==>
      var qualified := if tableAlias.Some? then tableAlias.value + "." + columnName else columnName;
      r.value == qualified + AtUtcSuffix + columnName + "\""
  {
    if columnName == [] then Err(IllegalArgument("Column name must not be empty."))
    else if tableAlias == Some([]) then Err(IllegalArgument("Alias must not be empty."))
    else
      var qualified := match tableAlias case Some(alias) => alias + "." + columnName case None => columnName;
      Ok(qualified + AtUtcSuffix + columnName + "\"")
  }

  /** `createTimestampExpression(String tableAlias, String columnName)`. */
  function TimestampExpressionWithAlias(tableAlias: string, columnName: string): (r: Result<string, Failure>)
    ensures r == TimestampExpression(Some(tableAlias), columnName)
  {
    TimestampExpression(Some(tableAlias), columnName)
  }

  /** `createTimestampExpression(String columnName)`. */
  function TimestampExpressionOf(columnName: string): (r: Result<string, Failure>)
    ensures r == TimestampExpression(None, columnName)
  {
    TimestampExpression(None, columnName)
  }

  /** The qualified form is the plain form with "alias." in front. */
  lemma AliasQualifiesPlainExpression(tableAlias: string, columnName: string)
    requires tableAlias != [] && columnName != []
    ensures TimestampExpressionOf(columnName).Ok?
    ensures TimestampExpressionWithAlias(tableAlias, columnName)
      == Ok(tableAlias + "." + TimestampExpressionOf(columnName).value)
  {
    var plain := columnName + AtUtcSuffix + columnName + "\"";
    assert TimestampExpressionOf(columnName) == Ok(plain);
    var q := tableAlias + "." + columnName;
    assert TimestampExpressionWithAlias(tableAlias, columnName) == Ok(q + AtUtcSuffix + columnName + "\"");
    assert q + AtUtcSuffix + columnName + "\"" == tableAlias + "." + plain;
  }

  /** The expectations of TeradataUtilsTest for `createTimestampExpression`. */
  lemma TimestampExpressionExamples()
    ensures TimestampExpressionOf("abc") == Ok("abc" + AtUtcSuffix + "abc" + "\"")
    ensures TimestampExpressionWithAlias("t", "abc") == Ok("t" + "." + "abc" + AtUtcSuffix + "abc" + "\"")
    ensures TimestampExpressionOf("") == Err(IllegalArgument("Column name must not be empty."))
    ensures TimestampExpressionWithAlias("", "tableName") == Err(IllegalArgument("Alias must not be empty."))
  {
  }
}
