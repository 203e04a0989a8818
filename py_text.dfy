/** Python `str` operations used by the text tools, on Dafny strings (sequences of Unicode
    scalar values): character classes, strip, run substitution (`re.sub` with a one-class
    pattern and a `+`), decimal rendering, `str.replace`, `splitlines` and `"\n".join`. */
module PyText {

  /** `str.isspace()` for one character; also the class `\s` of a `str` regular expression. */
  predicate IsSpace(c: char)
  {
    ('\t' <= c <= '\r') || ('\U{1C}' <= c <= '\U{1F}') || c == ' ' || c == '\U{85}'
    || c == '\U{A0}' || c == '\U{1680}' || ('\U{2000}' <= c <= '\U{200A}')
    || c == '\U{2028}' || c == '\U{2029}' || c == '\U{202F}' || c == '\U{205F}'
    || c == '\U{3000}'
  }

  /** The class `[ \t\f\v]`. */
  predicate IsHSpace(c: char)
  {
    c == ' ' || c == '\t' || c == '\U{C}' || c == '\U{B}'
  }

  /** The characters at which `str.splitlines()` ends a line. */
  predicate IsLineBreak(c: char)
  {
    ('\n' <= c <= '\r') || ('\U{1C}' <= c <= '\U{1E}') || c == '\U{85}'
    || c == '\U{2028}' || c == '\U{2029}'
  }

  lemma LineBreakIsSpace(c: char)
    ensures IsLineBreak(c) ==> IsSpace(c)
    ensures IsHSpace(c) ==> IsSpace(c)
  {
  }

  predicate IsAsciiDigit(c: char) { '0' <= c <= '9' }
  predicate IsAsciiUpper(c: char) { 'A' <= c <= 'Z' }
  predicate IsAsciiLower(c: char) { 'a' <= c <= 'z' }
  predicate IsAsciiAlnum(c: char) { IsAsciiDigit(c) || IsAsciiUpper(c) || IsAsciiLower(c) }

  /** Characters of a snake-case identifier: `[a-z0-9_]`. */
  predicate IsSnakeChar(c: char) { IsAsciiLower(c) || IsAsciiDigit(c) || c == '_' }

  function AsciiLower(c: char): (r: char)
    ensures IsAsciiUpper(c) ==> IsAsciiLower(r) && r as int == c as int + 32
    ensures !IsAsciiUpper(c) ==> r == c
  {
    if IsAsciiUpper(c) then (c as int + 32) as char else c
  }

  /** `str.lower()` restricted to ASCII letters. */
  function Lower(s: string): (r: string)
    ensures |r| == |s|
    ensures forall k | 0 <= k < |s| :: r[k] == AsciiLower(s[k])
  {
    if s == [] then [] else [AsciiLower(s[0])] + Lower(s[1..])
  }

  /** `Lower` leaves a string without upper-case ASCII letters as it is. */
  lemma LowerFixesNonUpper(s: string)
    requires forall k | 0 <= k < |s| :: !IsAsciiUpper(s[k])
    ensures Lower(s) == s
  {
    assert forall k | 0 <= k < |s| :: Lower(s)[k] == s[k];
  }

  /** `s.lstrip()` */
  function LStrip(s: string): (r: string)
    ensures |r| <= |s|
    ensures r != [] ==> !IsSpace(r[0])
    ensures forall k | 0 <= k < |s| - |r| :: IsSpace(s[k])
  {
    if s != [] && IsSpace(s[0]) then LStrip(s[1..]) else s
  }

  /** `s.rstrip()` */
  function RStrip(s: string): (r: string)
    ensures |r| <= |s|
    ensures r != [] ==> !IsSpace(r[|r| - 1])
    ensures forall k | |r| <= k < |s| :: IsSpace(s[k])
  {
    if s != [] && IsSpace(s[|s| - 1]) then RStrip(s[..|s| - 1]) else s
  }

  /** `s.lstrip()` is a suffix of `s`. */
  lemma {:induction false} LStripSuffix(s: string)
    ensures LStrip(s) == s[|s| - |LStrip(s)|..]
  {
    if s != [] && IsSpace(s[0]) {
      LStripSuffix(s[1..]);
      assert s[1..][|s| - 1 - |LStrip(s)|..] == s[|s| - |LStrip(s)|..];
    }
  }

  /** `s.rstrip()` is a prefix of `s`. */
  lemma {:induction false} RStripPrefix(s: string)
    ensures RStrip(s) == s[..|RStrip(s)|]
  {
    if s != [] && IsSpace(s[|s| - 1]) {
      RStripPrefix(s[..|s| - 1]);
      assert s[..|s| - 1][..|RStrip(s)|] == s[..|RStrip(s)|];
    }
  }

  /** `s.strip()` */
  function Strip(s: string): (r: string)
    ensures r == [] <==> forall k | 0 <= k < |s| :: IsSpace(s[k])
    ensures r != [] ==> !IsSpace(r[0]) && !IsSpace(r[|r| - 1])
  {
    LStripSuffix(s);
    RStripPrefix(LStrip(s));
    RStrip(LStrip(s))
  }

  /** `s.strip(c)` for a single character `c`. */
  function StripChar(s: string, c: char): (r: string)
    ensures |r| <= |s|
    ensures r != [] ==> r[0] != c && r[|r| - 1] != c
  {
    if s != [] && s[0] == c then StripChar(s[1..], c)
    else if s != [] && s[|s| - 1] == c then StripChar(s[..|s| - 1], c)
    else s
  }

  /** `s` without its longest prefix of elements satisfying `p`. */
  function DropWhile<T>(s: seq<T>, p: T -> bool): (r: seq<T>)
    ensures |r| <= |s|
    ensures r != [] ==> !p(r[0])
    ensures s != [] && p(s[0]) ==> |r| < |s|
  {
    if s != [] && p(s[0]) then DropWhile(s[1..], p) else s
  }

  /** `DropWhile` returns a suffix. */
  lemma {:induction false} DropWhileSuffix<T>(s: seq<T>, p: T -> bool)
    ensures DropWhile(s, p) == s[|s| - |DropWhile(s, p)|..]
  {
    if s != [] && p(s[0]) {
      DropWhileSuffix(s[1..], p);
      assert s[1..][|s| - 1 - |DropWhile(s, p)|..] == s[|s| - |DropWhile(s, p)|..];
    }
  }

  lemma DropWhileStops<T>(s: seq<T>, p: T -> bool)
    requires s != [] && !p(s[0])
    ensures DropWhile(s, p) == s
  {
  }

  /** Everything `DropWhile` drops satisfies `p`. */
  lemma {:induction false} DropWhileDropped<T>(s: seq<T>, p: T -> bool)
    ensures forall k | 0 <= k < |s| - |DropWhile(s, p)| :: p(s[k])
  {
    if s != [] && p(s[0]) {
      DropWhileDropped(s[1..], p);
      assert forall k | 1 <= k < |s| :: s[k] == s[1..][k - 1];
    }
  }

  /** `re.sub('[C]+', rep, s)` where the class `C` is given by `p`: every maximal run of
      elements satisfying `p` is replaced by `rep`. */
  function SubRuns<T>(s: seq<T>, p: T -> bool, rep: seq<T>): (r: seq<T>)
    ensures forall c | c in r :: c in rep || (c in s && !p(c))
    decreases |s|
  {
    if s == [] then []
    else if p(s[0]) then
      DropWhileSuffix(s, p);
      rep + SubRuns(DropWhile(s, p), p, rep)
    else [s[0]] + SubRuns(s[1..], p, rep)
  }

  /** With a one-character replacement that itself belongs to the class, the result holds
      no two neighbouring class characters, and it starts with a class character exactly
      when the input does. */
  lemma {:induction false} SubRunsSeparated<T>(s: seq<T>, p: T -> bool, x: T)
    requires p(x)
    ensures var r := SubRuns(s, p, [x]);
      (r == [] <==> s == [])
      && (r != [] ==> (p(r[0]) <==> p(s[0])))
      && forall k | 0 <= k < |r| - 1 :: !(p(r[k]) && p(r[k + 1]))
    decreases |s|
  {
    if s == [] {
    } else if p(s[0]) {
      var t := DropWhile(s, p);
      SubRunsSeparated(t, p, x);
      var rt := SubRuns(t, p, [x]);
      assert SubRuns(s, p, [x]) == [x] + rt;
      assert rt != [] ==> !p(rt[0]);
    } else {
      SubRunsSeparated(s[1..], p, x);
      var rt := SubRuns(s[1..], p, [x]);
      assert SubRuns(s, p, [x]) == [s[0]] + rt;
    }
  }

  /** `s` holds only `x` from the class `p`, and never two class characters side by side. */
  predicate Separated<T(==)>(s: seq<T>, p: T -> bool, x: T)
  {
    && (forall k | 0 <= k < |s| :: p(s[k]) ==> s[k] == x)
    && (forall k | 0 <= k < |s| - 1 :: !(p(s[k]) && p(s[k + 1])))
  }

  /** A string whose class characters are all `x` and pairwise separated is left as it is. */
  lemma {:induction false} SubRunsFixed<T>(s: seq<T>, p: T -> bool, x: T)
    requires Separated(s, p, x)
    ensures SubRuns(s, p, [x]) == s
    decreases |s|
  {
    if s != [] {
      SeparatedTail(s, p, x);
      SubRunsFixed(s[1..], p, x);
      if p(s[0]) {
        assert s[0] == x;
        assert |s| == 1 || !p(s[1]);
        DropWhileOne(s, p);
      }
      assert s == [s[0]] + s[1..];
    }
  }

  lemma DropWhileOne<T>(s: seq<T>, p: T -> bool)
    requires s != [] && p(s[0]) && (|s| == 1 || !p(s[1]))
    ensures DropWhile(s, p) == s[1..]
  {
    if |s| > 1 {
      assert s[1..][0] == s[1];
      DropWhileStops(s[1..], p);
    }
  }

  lemma SeparatedTail<T>(s: seq<T>, p: T -> bool, x: T)
    requires s != [] && Separated(s, p, x)
    ensures Separated(s[1..], p, x)
  {
    forall k | 0 <= k < |s| - 1 ensures s[1..][k] == s[k + 1] { }
  }

  function DigitChar(d: nat): (c: char)
    requires d < 10
    ensures IsAsciiDigit(c)
  {
    ('0' as int + d) as char
  }

  /** `str(n)` for a natural number. */
  function Decimal(n: nat): (r: string)
    ensures r != [] && forall c | c in r :: IsAsciiDigit(c)
  {
    if n < 10 then [DigitChar(n)] else Decimal(n / 10) + [DigitChar(n % 10)]
  }

  /** Different numbers have different decimal forms. */
  lemma {:induction false} DecimalInjective(n: nat, m: nat)
    requires Decimal(n) == Decimal(m)
    ensures n == m
    decreases n
  {
    if n >= 10 && m >= 10 {
      var a, b := Decimal(n), Decimal(m);
      assert a[..|a| - 1] == Decimal(n / 10) && b[..|b| - 1] == Decimal(m / 10);
      DecimalInjective(n / 10, m / 10);
      assert DigitChar(n % 10) == a[|a| - 1] == DigitChar(m % 10);
    }
  }

  /** `s.replace(pat, rep)`: non-overlapping occurrences, left to right. */
  function ReplaceAll(s: string, pat: string, rep: string): (r: string)
    requires pat != []
    decreases |s|
  {
    if |s| < |pat| then s
    else if s[..|pat|] == pat then rep + ReplaceAll(s[|pat|..], pat, rep)
    else [s[0]] + ReplaceAll(s[1..], pat, rep)
  }

  lemma ReplaceAllAtMatch(pat: string, w: string, rep: string)
    requires pat != []
    ensures ReplaceAll(pat + w, pat, rep) == rep + ReplaceAll(w, pat, rep)
  {
    assert (pat + w)[..|pat|] == pat && (pat + w)[|pat|..] == w;
  }

  /** Text without the pattern's first character is copied as it is. */
  lemma {:induction false} ReplaceAllSkip(u: string, w: string, pat: string, rep: string)
    requires pat != [] && pat[0] !in u
    ensures ReplaceAll(u + w, pat, rep) == u + ReplaceAll(w, pat, rep)
  {
    if u != [] {
      var s := u + w;
      assert s[1..] == u[1..] + w;
      if |s| >= |pat| {
        assert s[..|pat|][0] == u[0];
      }
      assert |s| < |pat| ==> ReplaceAll(u[1..] + w, pat, rep) == u[1..] + w;
      ReplaceAllSkip(u[1..], w, pat, rep);
      assert u == [u[0]] + u[1..];
    } else {
      assert u + w == w;
    }
  }

  /** Text in which no occurrence of the pattern starts is copied as it is. */
  lemma {:induction false} ReplaceAllNoMatch(u: string, w: string, pat: string, rep: string)
    requires pat != []
    requires forall i | 0 <= i < |u| :: !OccursAt(pat, u + w, i)
    ensures ReplaceAll(u + w, pat, rep) == u + ReplaceAll(w, pat, rep)
  {
    if u == [] {
      assert u + w == w;
    } else {
      var s := u + w;
      assert s[1..] == u[1..] + w;
      forall i | 0 <= i < |u| - 1 ensures !OccursAt(pat, u[1..] + w, i) {
        assert !OccursAt(pat, s, i + 1);
        if i + |pat| <= |s| - 1 {
          assert (u[1..] + w)[i..i + |pat|] == s[i + 1..i + 1 + |pat|];
        }
      }
      ReplaceAllNoMatch(u[1..], w, pat, rep);
      assert !OccursAt(pat, s, 0);
      assert u == [u[0]] + u[1..];
    }
  }

  /** A pattern does not occur at `i` when one of its characters differs there. */
  lemma MismatchAt(t: string, s: string, i: nat, x: nat)
    requires x < |t|
    requires i + |t| <= |s| ==> s[i + x] != t[x]
    ensures !OccursAt(t, s, i)
  {
    if i + |t| <= |s| {
      assert s[i..i + |t|][x] != t[x];
    }
  }

  /** `t in s` for strings. */
  predicate IsSubstring(t: string, s: string)
  {
    exists k | 0 <= k <= |s| - |t| :: OccursAt(t, s, k)
  }

  /** `t` occurs in `s` starting at index `k`. */
  predicate OccursAt(t: string, s: string, k: nat)
  {
    k + |t| <= |s| && s[k..k + |t|] == t
  }

  /** `l` holds no line-break character. */
  predicate NoBreak(l: string)
  {
    forall k | 0 <= k < |l| :: !IsLineBreak(l[k])
  }

  /** Index of the first line break in `s` (or `|s|`). */
  function LineEnd(s: string): (e: nat)
    ensures e <= |s|
    ensures NoBreak(s[..e])
    ensures e < |s| ==> IsLineBreak(s[e])
  {
    if s == [] || IsLineBreak(s[0]) then 0
    else
      var e := 1 + LineEnd(s[1..]);
      assert forall k | 1 <= k < e :: s[..e][k] == s[1..][..e - 1][k - 1];
      e
  }

  /** `s.splitlines()`: a line ends at any line-break character, `\r\n` counting as one;
      a final line break does not open an empty last line. */
  function SplitLines(s: string): (ls: seq<string>)
    ensures forall k | 0 <= k < |ls| :: NoBreak(ls[k])
    ensures s == [] <==> ls == []
    decreases |s|
  {
    if s == [] then []
    else
      var e := LineEnd(s);
      if e == |s| then
        assert s[..e] == s;
        [s]
      else
        var next := if s[e] == '\r' && e + 1 < |s| && s[e + 1] == '\n' then e + 2 else e + 1;
        [s[..e]] + SplitLines(s[next..])
  }

  /** `"\n".join(ls)` */
  function JoinLines(ls: seq<string>): (s: string)
  {
    if ls == [] then [] else if |ls| == 1 then ls[0] else ls[0] + "\n" + JoinLines(ls[1..])
  }

  /** Splitting the joined lines gives the lines back, unless the last one is empty
      (`"a\n"` splits to one line) or some line holds a line break. */
  lemma {:induction false} SplitJoinLines(ls: seq<string>)
    requires forall k | 0 <= k < |ls| :: NoBreak(ls[k])
    requires ls != [] ==> ls[|ls| - 1] != []
    ensures SplitLines(JoinLines(ls)) == ls
  {
    if |ls| == 1 {
      LineEndOfLine(ls[0]);
    } else if |ls| > 1 {
      SplitJoinLines(ls[1..]);
      SplitJoinStep(ls[0], JoinLines(ls[1..]));
    }
  }

  /** Splitting `l + "\n" + rest` gives `l`, then the split of `rest`. */
  lemma SplitJoinStep(l: string, rest: string)
    requires NoBreak(l)
    ensures SplitLines(l + "\n" + rest) == [l] + SplitLines(rest)
  {
    var s := l + "\n" + rest;
    LineEndPrefix(l, "\n" + rest);
    assert s == l + ("\n" + rest);
    assert s[..|l|] == l;
    assert s[|l| + 1..] == rest;
  }

  lemma {:induction false} LineEndOfLine(l: string)
    requires NoBreak(l)
    ensures LineEnd(l) == |l|
  {
    if l != [] {
      assert NoBreak(l[1..]) by {
        forall k | 0 <= k < |l| - 1 ensures !IsLineBreak(l[1..][k]) { assert l[1..][k] == l[k + 1]; }
      }
      LineEndOfLine(l[1..]);
    }
  }

  lemma {:induction false} LineEndPrefix(l: string, t: string)
    requires NoBreak(l)
    requires t != [] && IsLineBreak(t[0])
    ensures LineEnd(l + t) == |l|
  {
    if l == [] {
      assert l + t == t;
    } else {
      assert NoBreak(l[1..]) by {
        forall k | 0 <= k < |l| - 1 ensures !IsLineBreak(l[1..][k]) { assert l[1..][k] == l[k + 1]; }
      }
      assert (l + t)[1..] == l[1..] + t;
      LineEndPrefix(l[1..], t);
    }
  }
}
