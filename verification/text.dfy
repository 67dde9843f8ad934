/**
 * String primitives the job pipeline is built from: ASCII case folding,
 * substring search, the whitespace classes of PHP's PCRE and of
 * JavaScript, PHP's trim() and explode(), and the two whitespace-collapsing
 * regular expressions (`/\s+/` -> " " in PHP, `/\s{2,}/g` -> " " in
 * JavaScript).  Strings are sequences of characters; the middle dot that
 * separates the segments of a scraped title is a single character here.
 */
module Text {

  // ------------------------------------------------------------------
  // Case folding and search
  // ------------------------------------------------------------------

  function LowerChar(c: char): char {
    if 'A' <= c <= 'Z' then (c as int + 32) as char else c
  }

  /** strtolower(), and the comparison the /i flag makes, on ASCII letters. */
  function Lower(s: string): (r: string)
    ensures |r| == |s|
    ensures forall i {:trigger r[i]} :: 0 <= i < |s| ==> r[i] == LowerChar(s[i])
  {
    seq(|s|, i requires 0 <= i < |s| => LowerChar(s[i]))
  }

  /** Lower-casing commutes with taking a slice. */
  lemma LowerSlice(s: string, i: nat, j: nat)
    requires i <= j <= |s|
    ensures Lower(s)[i..j] == Lower(s[i..j])
  {
  }

  predicate StartsWith(s: string, p: string) {
    |p| <= |s| && s[..|p|] == p
  }

  /** `t` occurs in `s` as a contiguous substring (strpos() !== false, String.includes). */
  predicate Contains(s: string, t: string)
    decreases |s|
  {
    StartsWith(s, t) || (|s| > 0 && Contains(s[1..], t))
  }

  /** An occurrence at a known index is enough for Contains. */
  lemma {:induction false} ContainsAt(s: string, t: string, i: nat)
    requires i + |t| <= |s| && s[i..i + |t|] == t
    ensures Contains(s, t)
  {
    if i > 0 {
      assert s[1..][i - 1..i - 1 + |t|] == s[i..i + |t|];
      ContainsAt(s[1..], t, i - 1);
    }
  }

  /** Contains means an occurrence at some index. */
  lemma {:induction false} ContainsIndex(s: string, t: string) returns (i: nat)
    requires Contains(s, t)
    ensures i + |t| <= |s| && s[i..i + |t|] == t
  {
    if StartsWith(s, t) {
      i := 0;
    } else {
      var j := ContainsIndex(s[1..], t);
      assert s[1..][j..j + |t|] == s[j + 1..j + 1 + |t|];
      i := j + 1;
    }
  }

  /** A needle with a character the haystack lacks does not occur in it. */
  lemma {:induction false} NotContainsChar(s: string, t: string, c: char)
    requires c in t && c !in s
    ensures !Contains(s, t)
  {
    if |s| > 0 {
      NotContainsChar(s[1..], t, c);
    }
  }

  // ------------------------------------------------------------------
  // Whitespace classes
  // ------------------------------------------------------------------

  /** `\s` of PHP's PCRE without the u flag: space, HT, LF, VT, FF, CR. */
  predicate IsPcreSpace(c: char) {
    c == ' ' || c == '\t' || c == '\n' || c == '\U{000B}' || c == '\U{000C}' || c == '\r'
  }

  /** The characters PHP's trim() removes by default: space, HT, LF, CR, NUL, VT. */
  predicate IsPhpTrimChar(c: char) {
    c == ' ' || c == '\t' || c == '\n' || c == '\r' || c == '\U{0000}' || c == '\U{000B}'
  }

  /**
   * JavaScript's WhiteSpace and LineTerminator characters: what `\s`
   * matches in a regular expression and what String.prototype.trim removes.
   */
  predicate IsJsSpace(c: char) {
    c == '\t' || c == '\n' || c == '\U{000B}' || c == '\U{000C}' || c == '\r' || c == ' '
    || c == '\U{00A0}' || c == '\U{1680}' || ('\U{2000}' <= c <= '\U{200A}')
    || c == '\U{2028}' || c == '\U{2029}' || c == '\U{202F}' || c == '\U{205F}'
    || c == '\U{3000}' || c == '\U{FEFF}'
  }

  // ------------------------------------------------------------------
  // Trimming
  // ------------------------------------------------------------------

  /** `s` without its leading `ws` characters. */
  function TrimLeft(s: string, ws: char -> bool): (r: string)
    ensures |r| <= |s| && (s != [] && ws(s[0]) ==> |r| < |s|)
  {
    if s != [] && ws(s[0]) then TrimLeft(s[1..], ws) else s
  }

  /** `s` without its trailing `ws` characters. */
  function TrimRight(s: string, ws: char -> bool): string {
    if s != [] && ws(s[|s| - 1]) then TrimRight(s[..|s| - 1], ws) else s
  }

  /** Both ends trimmed. */
  function Trim(s: string, ws: char -> bool): string {
    TrimRight(TrimLeft(s, ws), ws)
  }

  /** TrimLeft cuts a prefix of `ws` characters, and what is left does not start with one. */
  lemma {:induction false} TrimLeftSpec(s: string, ws: char -> bool)
    ensures |TrimLeft(s, ws)| <= |s| && TrimLeft(s, ws) == s[|s| - |TrimLeft(s, ws)|..]
    ensures forall k :: 0 <= k < |s| - |TrimLeft(s, ws)| ==> ws(s[k])
    ensures TrimLeft(s, ws) == [] || !ws(TrimLeft(s, ws)[0])
  {
    if s != [] && ws(s[0]) {
      TrimLeftSpec(s[1..], ws);
    }
  }

  /** TrimRight cuts a suffix of `ws` characters, and what is left does not end with one. */
  lemma {:induction false} TrimRightSpec(s: string, ws: char -> bool)
    ensures |TrimRight(s, ws)| <= |s| && TrimRight(s, ws) == s[..|TrimRight(s, ws)|]
    ensures forall k :: |TrimRight(s, ws)| <= k < |s| ==> ws(s[k])
    ensures TrimRight(s, ws) == [] || !ws(TrimRight(s, ws)[|TrimRight(s, ws)| - 1])
  {
    if s != [] && ws(s[|s| - 1]) {
      TrimRightSpec(s[..|s| - 1], ws);
    }
  }

  /** TrimRight cuts no further than any suffix made only of `ws` characters. */
  lemma {:induction false} TrimRightLeast(s: string, x: nat, ws: char -> bool)
    requires x <= |s| && forall i :: x <= i < |s| ==> ws(s[i])
    ensures |TrimRight(s, ws)| <= x
  {
    if x < |s| {
      TrimRightLeast(s[..|s| - 1], x, ws);
    } else {
      TrimRightSpec(s, ws);
    }
  }

  /**
   * What trimming promises: the result is the block of `s` that starts at
   * `a`, everything cut on either side is a `ws` character, and the result
   * neither starts nor ends with one.
   */
  lemma TrimSpec(s: string, ws: char -> bool) returns (a: nat)
    ensures a + |Trim(s, ws)| <= |s| && Trim(s, ws) == s[a..a + |Trim(s, ws)|]
    ensures forall k :: 0 <= k < a ==> ws(s[k])
    ensures forall k :: a + |Trim(s, ws)| <= k < |s| ==> ws(s[k])
    ensures Trim(s, ws) == [] || (!ws(Trim(s, ws)[0]) && !ws(Trim(s, ws)[|Trim(s, ws)| - 1]))
  {
    var l := TrimLeft(s, ws);
    TrimLeftSpec(s, ws);
    TrimRightSpec(l, ws);
    a := |s| - |l|;
    var r := Trim(s, ws);
    assert r == l[..|r|];
    forall k | a + |r| <= k < |s|
      ensures ws(s[k])
    {
      assert s[k] == l[k - a];
    }
  }

  /** A string whose two ends are not `ws` characters is left as it is by Trim. */
  lemma TrimOfTrimmed(s: string, ws: char -> bool)
    requires s == [] || (!ws(s[0]) && !ws(s[|s| - 1]))
    ensures Trim(s, ws) == s
  {
  }

  /** Trimming only removes characters: one that `s` lacks, its trim lacks too. */
  lemma TrimLacks(s: string, ws: char -> bool, c: char)
    requires c !in s
    ensures c !in Trim(s, ws)
  {
    var a := TrimSpec(s, ws);
    var r := Trim(s, ws);
    forall k | 0 <= k < |r|
      ensures r[k] != c
    {
      assert r[k] == s[a + k];
    }
  }

  /** A prefix made only of `ws` characters is cut, whatever follows it. */
  lemma {:induction false} TrimLeftSkips(u: string, y: string, ws: char -> bool)
    requires forall i :: 0 <= i < |u| ==> ws(u[i])
    ensures TrimLeft(u + y, ws) == TrimLeft(y, ws)
  {
    if u != [] {
      assert (u + y)[1..] == u[1..] + y;
      TrimLeftSkips(u[1..], y, ws);
    } else {
      assert u + y == y;
    }
  }

  /** A suffix made only of `ws` characters is cut, whatever precedes it. */
  lemma {:induction false} TrimRightSkips(y: string, u: string, ws: char -> bool)
    requires forall i :: 0 <= i < |u| ==> ws(u[i])
    ensures TrimRight(y + u, ws) == TrimRight(y, ws)
  {
    if u != [] {
      assert (y + u)[..|y + u| - 1] == y + u[..|u| - 1];
      TrimRightSkips(y, u[..|u| - 1], ws);
    } else {
      assert y + u == y;
    }
  }

  /** TrimLeft stops inside `x` when `x` ends with a character it keeps, and keeps that character. */
  lemma {:induction false} TrimLeftStops(x: string, t: string, ws: char -> bool)
    requires x != [] && !ws(x[|x| - 1])
    ensures TrimLeft(x + t, ws) == TrimLeft(x, ws) + t
    ensures TrimLeft(x, ws) != [] && TrimLeft(x, ws)[|TrimLeft(x, ws)| - 1] == x[|x| - 1]
  {
    if ws(x[0]) {
      assert (x + t)[1..] == x[1..] + t;
      TrimLeftStops(x[1..], t, ws);
    }
  }

  /** TrimRight stops inside `y` when `y` starts with a character it keeps. */
  lemma {:induction false} TrimRightStops(t: string, y: string, ws: char -> bool)
    requires y != [] && !ws(y[0])
    ensures TrimRight(t + y, ws) == t + TrimRight(y, ws)
  {
    if ws(y[|y| - 1]) {
      assert (t + y)[..|t + y| - 1] == t + y[..|y| - 1];
      TrimRightStops(t, y[..|y| - 1], ws);
    }
  }

  /** PHP's trim() with its default character list. */
  function PhpTrim(s: string): string {
    Trim(s, IsPhpTrimChar)
  }

  /** JavaScript's String.prototype.trim(). */
  function JsTrim(s: string): string {
    Trim(s, IsJsSpace)
  }

  // ------------------------------------------------------------------
  // preg_replace('/\s+/', ' ', s)
  // ------------------------------------------------------------------

  /** The characters of `s` that are not `ws`, in order. */
  function Visible(s: string, ws: char -> bool): string {
    if s == [] then [] else (if ws(s[0]) then [] else [s[0]]) + Visible(s[1..], ws)
  }

  /** Every `\s` character is a single space, and none is followed by another. */
  ghost predicate SpacesCollapsed(s: string) {
    && (forall i :: 0 <= i < |s| && IsPcreSpace(s[i]) ==> s[i] == ' ')
    && (forall i, j :: 0 <= i < j < |s| && j == i + 1 ==> !(IsPcreSpace(s[i]) && IsPcreSpace(s[j])))
  }

  /**
   * Every maximal run of `\s` characters replaced by one space.  A space
   * character is dropped while the next one is also a space; the last one
   * of the run becomes ' '.
   */
  function CollapseSpaces(s: string): string {
    if s == [] then []
    else if IsPcreSpace(s[0]) then
      if |s| > 1 && IsPcreSpace(s[1]) then CollapseSpaces(s[1..])
      else [' '] + CollapseSpaces(s[1..])
    else [s[0]] + CollapseSpaces(s[1..])
  }

  /**
   * What the replacement promises: no run of `\s` is left, every `\s` is a
   * plain space, and the other characters are kept, in order.  The result
   * starts with a space exactly when `s` starts with whitespace.
   */
  lemma {:induction false} CollapseSpacesSpec(s: string)
    ensures SpacesCollapsed(CollapseSpaces(s))
    ensures Visible(CollapseSpaces(s), IsPcreSpace) == Visible(s, IsPcreSpace)
    ensures |CollapseSpaces(s)| <= |s|
    ensures s != [] ==> CollapseSpaces(s) != [] && CollapseSpaces(s)[0] == (if IsPcreSpace(s[0]) then ' ' else s[0])
  {
    if s != [] {
      CollapseSpacesSpec(s[1..]);
      var r := CollapseSpaces(s);
      var t := CollapseSpaces(s[1..]);
      if !IsPcreSpace(s[0]) || |s| == 1 || !IsPcreSpace(s[1]) {
        assert r == [r[0]] + t;
        forall i, j | 0 <= i < j < |r| && j == i + 1
          ensures !(IsPcreSpace(r[i]) && IsPcreSpace(r[j]))
        {
          if i > 0 {
            assert r[i] == t[i - 1] && r[j] == t[j - 1];
          }
        }
        assert Visible(r, IsPcreSpace) == Visible([r[0]], IsPcreSpace) + Visible(t, IsPcreSpace) by {
          assert r[1..] == t;
        }
      }
    }
  }

  /** Collapsing a string that is already collapsed changes nothing. */
  lemma {:induction false} CollapseOfCollapsed(s: string)
    requires SpacesCollapsed(s)
    ensures CollapseSpaces(s) == s
  {
    if s != [] {
      if |s| > 1 {
        assert !(IsPcreSpace(s[0]) && IsPcreSpace(s[1]));
      }
      CollapsedSlice(s, 1, |s|);
      CollapseOfCollapsed(s[1..]);
    }
  }

  /** Substrings of a collapsed string are collapsed. */
  lemma CollapsedSlice(s: string, i: nat, j: nat)
    requires SpacesCollapsed(s) && i <= j <= |s|
    ensures SpacesCollapsed(s[i..j])
  {
    var u := s[i..j];
    forall k | 0 <= k < |u| && IsPcreSpace(u[k])
      ensures u[k] == ' '
    {
      assert u[k] == s[i + k];
    }
    forall k, l | 0 <= k < l < |u| && l == k + 1
      ensures !(IsPcreSpace(u[k]) && IsPcreSpace(u[l]))
    {
      assert u[k] == s[i + k] && u[l] == s[i + l];
    }
  }

  /**
   * Associativity of concatenation, as a named step: the split lemmas below
   * call it instead of asserting the regrouping inline, which keeps the
   * solver from searching over every bracketing of a three-part string.
   */
  lemma SeqAssoc(x: string, y: string, z: string)
    ensures x + y + z == x + (y + z)
  {
  }

  /** Collapsing splits after a character that is not whitespace: no run crosses it. */
  lemma {:induction false} CollapseSpacesAppend(a: string, t: string)
    requires a != [] && !IsPcreSpace(a[|a| - 1])
    ensures CollapseSpaces(a + t) == CollapseSpaces(a) + CollapseSpaces(t)
  {
    assert (a + t)[1..] == a[1..] + t;
    if |a| > 1 {
      assert (a + t)[1] == a[1];
      CollapseSpacesAppend(a[1..], t);
    }
  }

  /** A whole run of whitespace, however long, becomes one space. */
  lemma {:induction false} CollapseSpacesRun(r: string, b: string)
    requires r != [] && forall i :: 0 <= i < |r| ==> IsPcreSpace(r[i])
    requires b == [] || !IsPcreSpace(b[0])
    ensures CollapseSpaces(r + b) == " " + CollapseSpaces(b)
  {
    assert (r + b)[1..] == r[1..] + b;
    if |r| > 1 {
      assert (r + b)[1] == r[1];
      CollapseSpacesRun(r[1..], b);
    }
  }

  /**
   * What the replacement does at each run: around a maximal run `r` of
   * whitespace, the text collapses piecewise and the run becomes one space.
   */
  lemma CollapseSpacesSplit(a: string, r: string, b: string)
    requires a == [] || !IsPcreSpace(a[|a| - 1])
    requires r != [] && forall i :: 0 <= i < |r| ==> IsPcreSpace(r[i])
    requires b == [] || !IsPcreSpace(b[0])
    ensures CollapseSpaces(a + r + b) == CollapseSpaces(a) + " " + CollapseSpaces(b)
  {
    CollapseSpacesRun(r, b);
    if a == [] {
      assert a + r + b == r + b;
    } else {
      CollapseSpacesAppend(a, r + b);
      SeqAssoc(a, r, b);
      SeqAssoc(CollapseSpaces(a), " ", CollapseSpaces(b));
    }
  }

  /** A title in the form the normalisation pass leaves it in. */
  ghost predicate PhpNormalized(s: string) {
    SpacesCollapsed(s) && (s == [] || (!IsPhpTrimChar(s[0]) && !IsPhpTrimChar(s[|s| - 1])))
  }

  /** trim(preg_replace('/\s+/', ' ', s)), the title clean-up of the fetch pass. */
  function SquashTitle(s: string): string {
    PhpTrim(CollapseSpaces(s))
  }

  /** The clean-up leaves a normalised title. */
  lemma SquashTitleNormalized(s: string)
    ensures PhpNormalized(SquashTitle(s))
  {
    var c := CollapseSpaces(s);
    CollapseSpacesSpec(s);
    TrimSliceNormalized(c, 0, |c|);
    assert c[0..|c|] == c;
  }

  /** Trimming any slice of a collapsed string yields a normalised string. */
  lemma TrimSliceNormalized(s: string, i: nat, j: nat)
    requires SpacesCollapsed(s) && i <= j <= |s|
    ensures PhpNormalized(PhpTrim(s[i..j]))
  {
    var u := s[i..j];
    CollapsedSlice(s, i, j);
    var k := TrimSpec(u, IsPhpTrimChar);
    CollapsedSlice(u, k, k + |PhpTrim(u)|);
  }

  /** The clean-up is idempotent: a normalised title is its own clean-up. */
  lemma {:induction false} SquashTitleOfNormalized(s: string)
    requires PhpNormalized(s)
    ensures SquashTitle(s) == s
  {
    CollapseOfCollapsed(s);
    TrimOfTrimmed(s, IsPhpTrimChar);
  }

  // ------------------------------------------------------------------
  // explode()
  // ------------------------------------------------------------------

  function Join(parts: seq<string>, sep: char): string
    requires |parts| >= 1
  {
    if |parts| == 1 then parts[0] else parts[0] + [sep] + Join(parts[1..], sep)
  }

  /** explode(sep, s): the pieces of `s` between separators, in order. */
  function Split(s: string, sep: char): (parts: seq<string>)
    ensures |parts| >= 1
  {
    if s == [] then [[]]
    else
      var rest := Split(s[1..], sep);
      if s[0] == sep then [[]] + rest
      else [[s[0]] + rest[0]] + rest[1..]
  }

  /**
   * What explode() promises: no piece holds the separator, joining the
   * pieces back with it gives `s`, and there is more than one piece exactly
   * when `s` holds the separator.
   */
  lemma {:induction false} SplitJoin(s: string, sep: char)
    ensures forall k :: 0 <= k < |Split(s, sep)| ==> sep !in Split(s, sep)[k]
    ensures Join(Split(s, sep), sep) == s
    ensures |Split(s, sep)| == 1 <==> sep !in s
  {
    if s != [] {
      var rest := Split(s[1..], sep);
      SplitJoin(s[1..], sep);
      assert s == [s[0]] + s[1..];
      if s[0] != sep {
        var parts := Split(s, sep);
        assert parts[1..] == rest[1..];
        forall k | 0 <= k < |parts|
          ensures sep !in parts[k]
        {
          if k > 0 {
            assert parts[k] == rest[k];
          }
        }
      }
    }
  }

  /**
   * The first piece of explode() is the text before the first separator:
   * a prefix of `s` without the separator, followed by the separator or
   * by the end of `s`.
   */
  lemma SplitHead(s: string, sep: char)
    ensures |Split(s, sep)[0]| <= |s| && Split(s, sep)[0] == s[..|Split(s, sep)[0]|]
    ensures sep !in Split(s, sep)[0]
    ensures |Split(s, sep)[0]| == |s| || s[|Split(s, sep)[0]|] == sep
  {
    var parts := Split(s, sep);
    SplitJoin(s, sep);
    if |parts| > 1 {
      assert s == parts[0] + [sep] + Join(parts[1..], sep);
    }
  }

  // ------------------------------------------------------------------
  // JavaScript: text.replace(/\s{2,}/g, ' ')
  // ------------------------------------------------------------------

  /** No two JavaScript whitespace characters stand next to each other. */
  ghost predicate NoSpaceRuns(s: string) {
    forall i, j :: 0 <= i < j < |s| && j == i + 1 ==> !(IsJsSpace(s[i]) && IsJsSpace(s[j]))
  }

  /**
   * Every run of two or more whitespace characters replaced by one space;
   * a lone whitespace character (a tab, a newline) is left as it is.
   */
  function CollapseRuns(s: string): string
    decreases |s|
  {
    if s == [] then []
    else if IsJsSpace(s[0]) && |s| > 1 && IsJsSpace(s[1]) then [' '] + CollapseRuns(TrimLeft(s, IsJsSpace))
    else [s[0]] + CollapseRuns(s[1..])
  }

  /**
   * What the replacement promises: no two whitespace characters are left
   * side by side, the other characters are kept in order, and the result
   * starts with whitespace exactly when `s` does.
   */
  lemma {:induction false} CollapseRunsSpec(s: string)
    ensures NoSpaceRuns(CollapseRuns(s))
    ensures Visible(CollapseRuns(s), IsJsSpace) == Visible(s, IsJsSpace)
    ensures |CollapseRuns(s)| <= |s|
    ensures s != [] ==> CollapseRuns(s) != [] && (IsJsSpace(CollapseRuns(s)[0]) <==> IsJsSpace(s[0]))
    decreases |s|
  {
    if s == [] {
    } else if IsJsSpace(s[0]) && |s| > 1 && IsJsSpace(s[1]) {
      var rest := TrimLeft(s, IsJsSpace);
      TrimLeftSpec(s, IsJsSpace);
      CollapseRunsSpec(rest);
      var t := CollapseRuns(rest);
      NoRunsCons(' ', t);
      VisibleCons(' ', t, IsJsSpace);
      VisibleSkipsSpaces(s, |s| - |rest|);
    } else {
      CollapseRunsSpec(s[1..]);
      var t := CollapseRuns(s[1..]);
      NoRunsCons(s[0], t);
      VisibleCons(s[0], t, IsJsSpace);
      VisibleCons(s[0], s[1..], IsJsSpace);
      assert [s[0]] + s[1..] == s;
    }
  }

  /** Putting a character in front keeps the string free of runs unless it starts one. */
  lemma NoRunsCons(c: char, t: string)
    requires NoSpaceRuns(t) && (t == [] || !IsJsSpace(c) || !IsJsSpace(t[0]))
    ensures NoSpaceRuns([c] + t)
  {
    var r := [c] + t;
    forall i, j | 0 <= i < j < |r| && j == i + 1
      ensures !(IsJsSpace(r[i]) && IsJsSpace(r[j]))
    {
      if i > 0 {
        assert r[i] == t[i - 1] && r[j] == t[j - 1];
      }
    }
  }

  lemma VisibleCons(c: char, t: string, ws: char -> bool)
    ensures Visible([c] + t, ws) == (if ws(c) then [] else [c]) + Visible(t, ws)
  {
    assert ([c] + t)[1..] == t;
  }

  /** Dropping a prefix of whitespace does not change the visible characters. */
  lemma {:induction false} VisibleSkipsSpaces(s: string, n: nat)
    requires n <= |s| && forall i :: 0 <= i < n ==> IsJsSpace(s[i])
    ensures Visible(s, IsJsSpace) == Visible(s[n..], IsJsSpace)
  {
    if n > 0 {
      VisibleSkipsSpaces(s[1..], n - 1);
      assert s[1..][n - 1..] == s[n..];
    }
  }

  /** A string without whitespace runs is left as it is: lone tabs and newlines survive. */
  lemma {:induction false} CollapseRunsOfNoRuns(s: string)
    requires NoSpaceRuns(s)
    ensures CollapseRuns(s) == s
  {
    if s != [] {
      if |s| > 1 {
        assert !(IsJsSpace(s[0]) && IsJsSpace(s[1]));
      }
      assert NoSpaceRuns(s[1..]) by {
        forall i, j | 0 <= i < j < |s| - 1 && j == i + 1
          ensures !(IsJsSpace(s[1..][i]) && IsJsSpace(s[1..][j]))
        {
          assert s[1..][i] == s[i + 1] && s[1..][j] == s[j + 1];
        }
      }
      CollapseRunsOfNoRuns(s[1..]);
    }
  }

  /** The `\s{2,}` replacement splits after a character that is not whitespace, and keeps that character last. */
  lemma {:induction false} CollapseRunsAppend(a: string, t: string)
    requires a != [] && !IsJsSpace(a[|a| - 1])
    ensures CollapseRuns(a + t) == CollapseRuns(a) + CollapseRuns(t)
    ensures CollapseRuns(a) != [] && CollapseRuns(a)[|CollapseRuns(a)| - 1] == a[|a| - 1]
    decreases |a|
  {
    var s := a + t;
    if |a| == 1 {
      assert s[1..] == t;
      assert a[1..] == [];
    } else if IsJsSpace(a[0]) && IsJsSpace(a[1]) {
      assert s[0] == a[0] && s[1] == a[1];
      TrimLeftStops(a, t, IsJsSpace);
      CollapseRunsAppend(TrimLeft(a, IsJsSpace), t);
    } else {
      assert s[1..] == a[1..] + t;
      CollapseRunsAppend(a[1..], t);
    }
  }

  /** A whole run of two or more whitespace characters becomes one space; a lone one is kept as it is. */
  lemma CollapseRunsRun(r: string, b: string)
    requires r != [] && forall i :: 0 <= i < |r| ==> IsJsSpace(r[i])
    requires b == [] || !IsJsSpace(b[0])
    ensures CollapseRuns(r + b) == (if |r| >= 2 then " " else r) + CollapseRuns(b)
  {
    var s := r + b;
    if |r| >= 2 {
      assert s[0] == r[0] && s[1] == r[1];
      TrimLeftSkips(r, b, IsJsSpace);
    } else {
      assert s[1..] == b;
    }
  }

  /**
   * What the replacement does at each run: around a maximal run `r` of
   * whitespace, the text is rewritten piecewise; a run of two or more
   * becomes one space and a single whitespace character stays.
   */
  lemma CollapseRunsSplit(a: string, r: string, b: string)
    requires a == [] || !IsJsSpace(a[|a| - 1])
    requires r != [] && forall i :: 0 <= i < |r| ==> IsJsSpace(r[i])
    requires b == [] || !IsJsSpace(b[0])
    ensures CollapseRuns(a + r + b) == CollapseRuns(a) + (if |r| >= 2 then " " else r) + CollapseRuns(b)
  {
    CollapseRunsRun(r, b);
    if a == [] {
      assert a + r + b == r + b;
    } else {
      CollapseRunsAppend(a, r + b);
      SeqAssoc(a, r, b);
      SeqAssoc(CollapseRuns(a), if |r| >= 2 then " " else r, CollapseRuns(b));
    }
  }
}
