/** The pure helpers of the data-prep dashboard (db_prepper.py): header names turned into
    snake-case column names and made unique, spreadsheet column letters, the preview
    slice, the fuzzy header search, duplicate-key detection and the row normalisation
    done before a SQLite insert. */
module DbPrep {
  import opened PySeq
  import opened PyText

  // ---------------------------------------------------------------------------------
  // to_snake
  // ---------------------------------------------------------------------------------

  /** The class `[^0-9a-zA-Z]`. */
  predicate NotAlnum(c: char) { !IsAsciiAlnum(c) }

  /** The class `_` of the pattern `_+`. */
  predicate IsUnderscore(c: char) { c == '_' }

  /** A run of `[a-z0-9_]` that neither starts nor ends with `_` and never holds `__`;
      it may be empty. */
  predicate IsSnakeToken(s: string)
  {
    && (forall k | 0 <= k < |s| :: IsSnakeChar(s[k]))
    && (s != [] ==> s[0] != '_' && s[|s| - 1] != '_')
    && NoDoubleUnderscore(s)
  }

  /** What `to_snake` promises of its result: a non-empty snake-case token that does not
      start with a digit. */
  predicate IsSnakeName(s: string)
  {
    s != [] && IsSnakeToken(s) && !IsAsciiDigit(s[0])
  }

  /** The stripped name with every run of other characters turned into one `_`, stripped
      of `_` and lower-cased. */
  function SnakeCore(name: string): string
  {
    Lower(StripChar(SubRuns(Strip(name), NotAlnum, "_"), '_'))
  }

  /** The rest of `to_snake`: runs of `_` collapsed, then the `col` fall-backs. */
  function Finished(core: string): string
  {
    var s := SubRuns(core, IsUnderscore, "_");
    var s := if s == [] then "col" else s;
    if IsAsciiDigit(s[0]) then "col_" + s else s
  }

  /** `to_snake(name)`: never empty, and never starting with a digit. */
  function ToSnake(name: string): (r: string)
    ensures r != [] && !IsAsciiDigit(r[0])
  {
    Finished(SnakeCore(name))
  }

  /** `StripChar` returns a slice of its input: the characters from some offset on. */
  lemma {:induction false} StripCharIsSlice(s: string, c: char) returns (i: nat)
    ensures var r := StripChar(s, c);
      i + |r| <= |s| && forall k | 0 <= k < |r| :: r[k] == s[i + k]
    decreases |s|
  {
    if s != [] && s[0] == c {
      var j := StripCharIsSlice(s[1..], c);
      i := j + 1;
      assert StripChar(s, c) == StripChar(s[1..], c);
    } else if s != [] && s[|s| - 1] == c {
      i := StripCharIsSlice(s[..|s| - 1], c);
      assert StripChar(s, c) == StripChar(s[..|s| - 1], c);
    } else {
      i := 0;
    }
  }

  /** No two neighbouring `_`. */
  predicate NoDoubleUnderscore(s: string)
  {
    forall k | 0 <= k < |s| - 1 :: !(s[k] == '_' && s[k + 1] == '_')
  }

  /** After the first substitution every character is `_` or alphanumeric, with no two
      `_` side by side; with no alphanumeric character to start from, only `_` is left. */
  lemma SubstitutedShape(t: string)
    ensures var a := SubRuns(t, NotAlnum, "_");
      && (forall k | 0 <= k < |a| :: a[k] == '_' || IsAsciiAlnum(a[k]))
      && NoDoubleUnderscore(a)
      && ((forall k | 0 <= k < |t| :: !IsAsciiAlnum(t[k])) ==> forall k | 0 <= k < |a| :: a[k] == '_')
  {
    var a := SubRuns(t, NotAlnum, "_");
    SubRunsSeparated(t, NotAlnum, '_');
    forall k | 0 <= k < |a| ensures a[k] == '_' || IsAsciiAlnum(a[k]) {
      assert a[k] in a;
    }
    forall k | 0 <= k < |a| - 1 ensures !(a[k] == '_' && a[k + 1] == '_') {
      assert !(NotAlnum(a[k]) && NotAlnum(a[k + 1]));
    }
    if forall k | 0 <= k < |t| :: !IsAsciiAlnum(t[k]) {
      forall k | 0 <= k < |a| ensures a[k] == '_' {
        assert a[k] in a;
      }
    }
  }

  /** Stripping `_` keeps the shape and removes `_` from both ends; from a string of `_`
      alone it leaves nothing. */
  lemma StrippedShape(a: string)
    requires forall k | 0 <= k < |a| :: a[k] == '_' || IsAsciiAlnum(a[k])
    requires NoDoubleUnderscore(a)
    ensures var b := StripChar(a, '_');
      && (forall k | 0 <= k < |b| :: b[k] == '_' || IsAsciiAlnum(b[k]))
      && NoDoubleUnderscore(b)
      && (b != [] ==> b[0] != '_' && b[|b| - 1] != '_')
      && ((forall k | 0 <= k < |a| :: a[k] == '_') ==> b == [])
  {
    var b := StripChar(a, '_');
    var i := StripCharIsSlice(a, '_');
    forall k | 0 <= k < |b| - 1 ensures !(b[k] == '_' && b[k + 1] == '_') {
      assert b[k] == a[i + k] && b[k + 1] == a[i + k + 1];
    }
  }

  /** `Strip` keeps only characters of its input. */
  lemma StripKeepsCharacters(name: string)
    ensures forall k | 0 <= k < |Strip(name)| :: Strip(name)[k] in name
  {
    var l := LStrip(name);
    LStripSuffix(name);
    RStripPrefix(l);
    assert forall k | 0 <= k < |l| :: l[k] == name[|name| - |l| + k];
  }

  /** The characters of `SnakeCore(name)`, and the fact that its `_` are separated and
      never at either end. */
  lemma SnakeCoreShape(name: string)
    ensures IsSnakeToken(SnakeCore(name))
    ensures (forall k | 0 <= k < |name| :: !IsAsciiAlnum(name[k])) ==> SnakeCore(name) == []
  {
    StrippedOfAlnumFree(name);
    SubstitutedTokenShape(Strip(name));
  }

  /** `re.sub('[^0-9a-zA-Z]+', '_', t).strip('_').lower()` is a snake-case token, empty
      when `t` holds no ASCII letter or digit. */
  lemma SubstitutedTokenShape(t: string)
    ensures IsSnakeToken(Lower(StripChar(SubRuns(t, NotAlnum, "_"), '_')))
    ensures (forall k | 0 <= k < |t| :: !IsAsciiAlnum(t[k])) ==>
      Lower(StripChar(SubRuns(t, NotAlnum, "_"), '_')) == []
  {
    var a := SubRuns(t, NotAlnum, "_");
    SubstitutedShape(t);
    var b := StripChar(a, '_');
    StrippedShape(a);
    LoweredShape(b);
  }

  /** Stripping a name without ASCII letters or digits leaves none. */
  lemma StrippedOfAlnumFree(name: string)
    ensures (forall k | 0 <= k < |name| :: !IsAsciiAlnum(name[k])) ==>
      forall k | 0 <= k < |Strip(name)| :: !IsAsciiAlnum(Strip(name)[k])
  {
    StripKeepsCharacters(name);
  }

  /** Lower-casing keeps the shape and makes every character a snake-case one. */
  lemma LoweredShape(b: string)
    requires forall k | 0 <= k < |b| :: b[k] == '_' || IsAsciiAlnum(b[k])
    requires NoDoubleUnderscore(b)
    requires b != [] ==> b[0] != '_' && b[|b| - 1] != '_'
    ensures IsSnakeToken(Lower(b))
    ensures b == [] ==> Lower(b) == []
  {
    var core := Lower(b);
    forall k | 0 <= k < |core| ensures IsSnakeChar(core[k]) {
      assert b[k] == '_' || IsAsciiAlnum(b[k]);
    }
    forall k | 0 <= k < |core| - 1 ensures !(core[k] == '_' && core[k + 1] == '_') {
      assert !(b[k] == '_' && b[k + 1] == '_');
    }
  }

  /** The collapse of `_` runs has nothing left to do, and the fall-backs give a
      snake-case name. */
  lemma FinishedShape(core: string)
    requires IsSnakeToken(core)
    ensures IsSnakeName(Finished(core))
    ensures core == [] ==> Finished(core) == "col"
    ensures IsSnakeName(core) ==> Finished(core) == core
  {
    SubRunsFixed(core, IsUnderscore, '_');
    if core == [] {
      assert Finished(core) == "col";
      ColIsSnakeName();
    } else if IsAsciiDigit(core[0]) {
      assert Finished(core) == "col_" + core;
      ColPrefixIsSnakeName(core);
    } else {
      assert Finished(core) == core;
    }
  }

  lemma ColIsSnakeName()
    ensures IsSnakeName("col")
  {
  }

  /** `col_` in front of a core that starts with a digit. */
  lemma ColPrefixIsSnakeName(core: string)
    requires IsSnakeToken(core) && core != [] && IsAsciiDigit(core[0])
    ensures IsSnakeName("col_" + core)
  {
    var r := "col_" + core;
    assert forall k | 4 <= k < |r| :: r[k] == core[k - 4];
    forall k | 0 <= k < |r| - 1 ensures !(r[k] == '_' && r[k + 1] == '_') {
      if k >= 4 {
        assert !(core[k - 4] == '_' && core[k - 3] == '_');
      }
    }
  }

  /** The result of `to_snake` is always a snake-case name, and a name without a single
      ASCII letter or digit becomes `col`. */
  lemma ToSnakeShape(name: string)
    ensures IsSnakeName(ToSnake(name))
    ensures (forall k | 0 <= k < |name| :: !IsAsciiAlnum(name[k])) ==> ToSnake(name) == "col"
  {
    SnakeCoreShape(name);
    FinishedShape(SnakeCore(name));
  }

  /** Each step before the collapse leaves a snake-case name as it is. */
  lemma SnakeCoreFixesSnakeTokens(s: string)
    requires IsSnakeToken(s)
    ensures SnakeCore(s) == s
  {
    StripFixesSnakeTokens(s);
    SubstitutionFixesSnakeTokens(s);
    StripCharFixesSnakeTokens(s);
    LowerFixesSnakeTokens(s);
  }

  lemma StripFixesSnakeTokens(s: string)
    requires IsSnakeToken(s)
    ensures Strip(s) == s
  {
    if s != [] {
      SnakeCharNotSpace(s[0]);
      SnakeCharNotSpace(s[|s| - 1]);
      assert LStrip(s) == s;
    }
  }

  lemma SnakeCharNotSpace(c: char)
    requires IsSnakeChar(c)
    ensures !IsSpace(c)
  {
  }

  lemma SubstitutionFixesSnakeTokens(s: string)
    requires IsSnakeToken(s)
    ensures SubRuns(s, NotAlnum, "_") == s
  {
    assert Separated(s, NotAlnum, '_');
    SubRunsFixed(s, NotAlnum, '_');
  }

  lemma StripCharFixesSnakeTokens(s: string)
    requires IsSnakeToken(s)
    ensures StripChar(s, '_') == s
  {
  }

  lemma LowerFixesSnakeTokens(s: string)
    requires IsSnakeToken(s)
    ensures Lower(s) == s
  {
    LowerFixesNonUpper(s);
  }

  /** A snake-case name is left as it is. */
  lemma ToSnakeFixesSnakeNames(s: string)
    requires IsSnakeName(s)
    ensures ToSnake(s) == s
  {
    SnakeCoreFixesSnakeTokens(s);
    FinishedShape(s);
  }

  /** `to_snake` is idempotent. */
  lemma ToSnakeIdempotent(name: string)
    ensures ToSnake(ToSnake(name)) == ToSnake(name)
  {
    ToSnakeShape(name);
    ToSnakeFixesSnakeNames(ToSnake(name));
  }

  // ---------------------------------------------------------------------------------
  // dedupe_headers
  // ---------------------------------------------------------------------------------

  /** The name given to the `n`-th header (counting from 1) whose snake-case form is
      `base`: the first keeps `base`, later ones become `base_n`. */
  function NumberedName(base: string, n: nat): string
  {
    if n == 1 then base else base + "_" + Decimal(n)
  }

  /** `[f(h) for h in hs]` */
  function Mapped(hs: seq<string>, f: string -> string): (r: seq<string>)
    ensures |r| == |hs|
  {
    if hs == [] then [] else Mapped(hs[..|hs| - 1], f) + [f(hs[|hs| - 1])]
  }

  lemma {:induction false} MappedAt(hs: seq<string>, f: string -> string, i: nat)
    requires i < |hs|
    ensures Mapped(hs, f)[i] == f(hs[i])
    decreases |hs|
  {
    if i < |hs| - 1 {
      MappedAt(hs[..|hs| - 1], f, i);
    }
  }

  /** The names a naming rule `name` gives to a sequence of snake-case forms: each form
      is numbered after how many earlier forms equal it. */
  function NumberedBy<T(==)>(bs: seq<T>, name: (T, nat) -> string): (r: seq<string>)
    ensures |r| == |bs|
  {
    if bs == [] then []
    else
      var prefix := bs[..|bs| - 1];
      NumberedBy(prefix, name) + [name(bs[|bs| - 1], Count(prefix, bs[|bs| - 1]) + 1)]
  }

  /** The names `dedupe_headers` gives to a sequence of snake-case forms. */
  function NumberedNames(bs: seq<string>): (r: seq<string>)
    ensures |r| == |bs|
  {
    NumberedBy(bs, NumberedName)
  }

  /** What `dedupe_headers` returns. */
  function Deduped(headers: seq<string>): (r: seq<string>)
    ensures |r| == |headers|
  {
    NumberedNames(Mapped(headers, ToSnake))
  }

  lemma NumberedByAppend<T>(bs: seq<T>, b: T, name: (T, nat) -> string)
    ensures NumberedBy(bs + [b], name) == NumberedBy(bs, name) + [name(b, Count(bs, b) + 1)]
  {
    AppendParts(bs, b);
  }

  /** Name `i` counts the equal forms before position `i`. */
  lemma {:induction false} NumberedByAt<T>(bs: seq<T>, i: nat, name: (T, nat) -> string)
    requires i < |bs|
    ensures NumberedBy(bs, name)[i] == name(bs[i], Count(bs[..i], bs[i]) + 1)
    decreases |bs|
  {
    var prefix := bs[..|bs| - 1];
    if i < |prefix| {
      NumberedByAt(prefix, i, name);
      assert prefix[..i] == bs[..i];
    }
  }

  /** `seen.get(b, 0)` */
  function Seen(seen: map<string, nat>, b: string): nat
  {
    if b in seen then seen[b] else 0
  }

  /** Counting one more form keeps `seen` equal to the counts. */
  lemma SeenStep(prev: seq<string>, base: string, seen: map<string, nat>)
    requires forall b :: Count(prev, b) == Seen(seen, b)
    ensures forall b :: Count(prev + [base], b) == Seen(seen[base := Seen(seen, base) + 1], b)
  {
    forall b ensures Count(prev + [base], b) == Seen(seen[base := Seen(seen, base) + 1], b) {
      CountAppend(prev, base, b);
    }
  }

  /** Naming one more form extends the names by one. */
  lemma NamesStep(prev: seq<string>, base: string, out: seq<string>, n: nat)
    requires out == NumberedNames(prev) && n == Count(prev, base) + 1
    ensures out + [NumberedName(base, n)] == NumberedNames(prev + [base])
  {
    NumberedByAppend(prev, base, NumberedName);
  }

  /** The loop of `dedupe_headers`, with the `seen` dictionary as a map, for the
      normalisation `snake` of the headers. */
  method NumberHeaders(headers: seq<string>, snake: string -> string) returns (out: seq<string>)
    ensures out == NumberedNames(Mapped(headers, snake))
  {
    var seen: map<string, nat> := map[];
    out := [];
    for i := 0 to |headers|
      invariant out == NumberedNames(Mapped(headers[..i], snake))
      invariant forall b :: Count(Mapped(headers[..i], snake), b) == Seen(seen, b)
    {
      ghost var prev := Mapped(headers[..i], snake);
      var base := snake(headers[i]);
      SeenStep(prev, base, seen);
      var n := Seen(seen, base) + 1;
      NamesStep(prev, base, out, n);
      seen := seen[base := n];
      out := out + [NumberedName(base, n)];
      assert headers[..i + 1][..i] == headers[..i];
      assert Mapped(headers[..i + 1], snake) == prev + [base];
    }
    assert headers[..|headers|] == headers;
  }

  /** `dedupe_headers(headers)`: the loop above under `to_snake`. */
  method DedupeHeaders(headers: seq<string>) returns (out: seq<string>)
    ensures out == Deduped(headers)
  {
    out := NumberHeaders(headers, ToSnake);
  }

  /** Different counts under one base give different names. */
  lemma NumberedNamesDiffer(base: string, n: nat, m: nat)
    requires 1 <= n < m
    ensures NumberedName(base, n) != NumberedName(base, m)
  {
    if n != 1 && NumberedName(base, n) == NumberedName(base, m) {
      var a, b := NumberedName(base, n), NumberedName(base, m);
      assert a[|base| + 1..] == Decimal(n) && b[|base| + 1..] == Decimal(m);
      DecimalInjective(n, m);
    }
  }

  /** A naming rule that gives different names to different counts of one form. */
  ghost predicate CountsDistinguish<T(!new)>(name: (T, nat) -> string)
  {
    forall b: T, n: nat, m: nat | 1 <= n < m :: name(b, n) != name(b, m)
  }

  lemma NumberedNameDistinguishes()
    ensures CountsDistinguish(NumberedName)
  {
    forall b: string, n: nat, m: nat | 1 <= n < m ensures NumberedName(b, n) != NumberedName(b, m) {
      NumberedNamesDiffer(b, n, m);
    }
  }

  /** Under such a rule, equal forms get different names. */
  lemma NumberedBySameBaseDiffer<T(!new)>(bs: seq<T>, i: nat, j: nat, name: (T, nat) -> string)
    requires CountsDistinguish(name)
    requires i < j < |bs| && bs[i] == bs[j]
    ensures NumberedBy(bs, name)[i] != NumberedBy(bs, name)[j]
  {
    NumberedByAt(bs, i, name);
    NumberedByAt(bs, j, name);
    CountGrows(bs, i, j);
  }

  /** Equal forms get different names. */
  lemma NumberedNamesSameBaseDiffer(bs: seq<string>, i: nat, j: nat)
    requires i < j < |bs| && bs[i] == bs[j]
    ensures NumberedNames(bs)[i] != NumberedNames(bs)[j]
  {
    NumberedNameDistinguishes();
    NumberedBySameBaseDiffer(bs, i, j, NumberedName);
  }

  /** Headers with the same snake-case form get different names. */
  lemma DedupedSameBaseDiffer(headers: seq<string>, i: nat, j: nat)
    requires i < j < |headers| && ToSnake(headers[i]) == ToSnake(headers[j])
    ensures Deduped(headers)[i] != Deduped(headers)[j]
  {
    MappedAt(headers, ToSnake, i);
    MappedAt(headers, ToSnake, j);
    NumberedNamesSameBaseDiffer(Mapped(headers, ToSnake), i, j);
  }

  /** Yet the names are not always distinct: a form that already looks numbered collides
      with the number given to a repeated one. */
  lemma NumberedNamesMayCollide()
    ensures NumberedNames(["a_2", "a", "a"]) == ["a_2", "a", "a_2"]
  {
    NumberedByRepeat("a_2", "a", NumberedName);
    SecondA();
  }

  lemma NumberedBySingle<T>(x: T, name: (T, nat) -> string)
    ensures NumberedBy([x], name) == [name(x, 1)]
  {
    NumberedByAppend([], x, name);
    assert [] + [x] == [x];
  }

  /** A form followed by a different form given twice. */
  lemma NumberedByRepeat<T>(x: T, y: T, name: (T, nat) -> string)
    requires x != y
    ensures NumberedBy([x, y, y], name) == [name(x, 1), name(y, 1), name(y, 2)]
  {
    var s1 := [x];
    var s2 := s1 + [y];
    NumberedBySingle(x, name);
    NumberedByAppend(s1, y, name);
    assert Count(s1, y) == 0;
    NumberedByAppend(s2, y, name);
    CountAppend(s1, y, y);
    assert s2 + [y] == [x, y, y];
  }

  lemma SecondA()
    ensures NumberedName("a", 1) == "a" && NumberedName("a", 2) == "a_2"
  {
    assert DigitChar(2) == '2';
  }

  /** `[f(h) for h in hs]` is `hs` itself when `f` fixes every element. */
  lemma {:induction false} MappedFixed(hs: seq<string>, f: string -> string)
    requires forall k | 0 <= k < |hs| :: f(hs[k]) == hs[k]
    ensures Mapped(hs, f) == hs
    decreases |hs|
  {
    if hs != [] {
      MappedFixed(hs[..|hs| - 1], f);
    }
  }

  /** Headers that are snake-case names already are numbered as they are. */
  lemma DedupedOfSnakeNames(hs: seq<string>)
    requires forall k | 0 <= k < |hs| :: IsSnakeName(hs[k])
    ensures Deduped(hs) == NumberedNames(hs)
  {
    forall k | 0 <= k < |hs| ensures ToSnake(hs[k]) == hs[k] {
      ToSnakeFixesSnakeNames(hs[k]);
    }
    MappedFixed(hs, ToSnake);
  }

  /** So the names are not always distinct: the headers `a_2`, `a`, `a` give `a_2` twice. */
  lemma DedupedMayCollide(hs: seq<string>)
    requires hs == ["a_2", "a", "a"]
    ensures Deduped(hs) == ["a_2", "a", "a_2"]
  {
    assert IsSnakeName(hs[0]) && IsSnakeName(hs[1]) && IsSnakeName(hs[2]);
    DedupedOfSnakeNames(hs);
    NumberedNamesMayCollide();
  }

  // ---------------------------------------------------------------------------------
  // _col_letters_to_index
  // ---------------------------------------------------------------------------------

  predicate IsAsciiLetter(c: char) { IsAsciiUpper(c) || IsAsciiLower(c) }

  /** The value of a letter: 1 for `A` or `a` up to 26 for `Z` or `z`. */
  function LetterValue(c: char): (v: nat)
    requires IsAsciiLetter(c)
    ensures 1 <= v <= 26
  {
    if IsAsciiUpper(c) then c as int - 'A' as int + 1 else c as int - 'a' as int + 1
  }

  /** The running value of `_col_letters_to_index` after reading `s`: each letter shifts
      it one base-26 place and adds its value, any other character is skipped. */
  function LettersValue(s: string): (r: nat)
    ensures r == 0 <==> forall i | 0 <= i < |s| :: !IsAsciiLetter(s[i])
  {
    if s == [] then 0
    else
      var v := LettersValue(s[..|s| - 1]);
      var c := s[|s| - 1];
      if IsAsciiLetter(c) then v * 26 + LetterValue(c) else v
  }

  /** `max(res - 1, 0)`: the zero-based column index; a reference without letters is
      column 0. */
  function ColumnIndex(ref: string): (r: nat)
    ensures (forall i | 0 <= i < |ref| :: !IsAsciiLetter(ref[i])) ==> r == 0
  {
    if LettersValue(ref) >= 1 then LettersValue(ref) - 1 else 0
  }

  /** `_col_letters_to_index(col_ref)` */
  method ColLettersToIndex(ref: string) returns (index: nat)
    ensures index == ColumnIndex(ref)
  {
    var res: nat := 0;
    for i := 0 to |ref|
      invariant res == LettersValue(ref[..i])
    {
      var ch := ref[i];
      assert ref[..i + 1][..i] == ref[..i];
      if 'A' <= ch <= 'Z' {
        res := res * 26 + (ch as int - 'A' as int + 1);
      } else if 'a' <= ch <= 'z' {
        res := res * 26 + (ch as int - 'a' as int + 1);
      }
    }
    assert ref[..|ref|] == ref;
    index := if res - 1 > 0 then res - 1 else 0;
  }

  /** The letter of value `d + 1`. */
  function UpperLetter(d: nat): (c: char)
    requires d < 26
    ensures IsAsciiUpper(c) && LetterValue(c) == d + 1
  {
    ('A' as int + d) as char
  }

  /** The spreadsheet name of column number `n` (counting from 1): `A` to `Z`, then `AA`,
      `AB`, and so on, in bijective base 26. */
  function ColumnLetters(n: nat): (s: string)
    requires n >= 1
    ensures s != [] && forall k | 0 <= k < |s| :: IsAsciiUpper(s[k])
    decreases n
  {
    var q, d := (n - 1) / 26, (n - 1) % 26;
    (if q == 0 then [] else ColumnLetters(q)) + [UpperLetter(d)]
  }

  /** Reading a column name gives its number back. */
  lemma {:induction false} LettersOfColumn(n: nat)
    requires n >= 1
    ensures LettersValue(ColumnLetters(n)) == n
    decreases n
  {
    var q, d := (n - 1) / 26, (n - 1) % 26;
    var s := ColumnLetters(n);
    assert s[..|s| - 1] == (if q == 0 then [] else ColumnLetters(q));
    if q != 0 {
      LettersOfColumn(q);
    }
  }

  /** So `_col_letters_to_index` inverts the naming: column `i` (from 0) is read back as
      `i`. */
  lemma ColumnIndexOfLetters(i: nat)
    ensures ColumnIndex(ColumnLetters(i + 1)) == i
  {
    LettersOfColumn(i + 1);
  }

  /** A non-empty run of upper-case letters has a value of at least 1. */
  lemma LettersValuePositive(s: string)
    requires s != [] && forall k | 0 <= k < |s| :: IsAsciiUpper(s[k])
    ensures LettersValue(s) >= 1
  {
  }

  /** And every non-empty run of upper-case letters is the name of the column it reads
      as: the naming is a bijection. */
  lemma {:induction false} ColumnOfLetters(s: string)
    requires s != [] && forall k | 0 <= k < |s| :: IsAsciiUpper(s[k])
    ensures ColumnLetters(LettersValue(s)) == s
    decreases |s|
  {
    var prefix, c := s[..|s| - 1], s[|s| - 1];
    var v, d := LettersValue(prefix), LetterValue(c) - 1;
    assert LettersValue(s) == v * 26 + d + 1;
    ShiftDigit(v, d);
    assert UpperLetter(d) == c;
    if prefix != [] {
      LettersValuePositive(prefix);
      ColumnOfLetters(prefix);
    }
    assert s == prefix + [c];
  }

  /** One base-26 place: `(v * 26 + d) // 26 == v` and `(v * 26 + d) % 26 == d`. */
  lemma ShiftDigit(v: nat, d: nat)
    requires d < 26
    ensures (v * 26 + d) / 26 == v && (v * 26 + d) % 26 == d
  {
  }

  /** Lower-case letters read as their upper-case forms. */
  lemma {:induction false} LettersValueIgnoresCase(s: string)
    ensures LettersValue(Lower(s)) == LettersValue(s)
    decreases |s|
  {
    if s != [] {
      var l := Lower(s);
      assert l[..|l| - 1] == Lower(s[..|s| - 1]);
      LettersValueIgnoresCase(s[..|s| - 1]);
    }
  }

  /** Characters other than letters are skipped wherever they stand. */
  lemma {:induction false} LettersValueSkipsOthers(s: string, c: char, t: string)
    requires !IsAsciiLetter(c)
    ensures LettersValue(s + [c] + t) == LettersValue(s + t)
    decreases |t|
  {
    if t == [] {
      assert (s + [c] + t)[..|s|] == s;
      assert s + t == s;
    } else {
      var t0 := t[..|t| - 1];
      LettersValueSkipsOthers(s, c, t0);
      assert (s + [c] + t)[..|s + [c] + t| - 1] == s + [c] + t0;
      assert (s + t)[..|s + t| - 1] == s + t0;
    }
  }

  // ---------------------------------------------------------------------------------
  // preview_slice
  // ---------------------------------------------------------------------------------

  function Min(a: int, b: int): int { if a <= b then a else b }
  function Max(a: int, b: int): int { if a >= b then a else b }

  /** `preview_slice(data, n)`: the header row, then `data[1:n+1]`. For `n >= 0` that is
      the header and at most `n` rows, a prefix of the data; a negative `n` follows
      Python's slicing (`-1` keeps the header alone, smaller values drop rows from the
      end). */
  function PreviewSlice<T>(data: seq<T>, n: int): (r: seq<T>)
    ensures data == [] ==> r == []
    ensures data != [] && n >= 0 ==> r == data[..Min(|data|, n + 1)]
    ensures data != [] && n == -1 ==> r == [data[0]]
    ensures data != [] && n < -1 ==> r == [data[0]] + data[1..Max(1, |data| + n + 1)]
  {
    if data == [] then [] else [data[0]] + PySlice(data, 1, n + 1)
  }

  // ---------------------------------------------------------------------------------
  // fuzzy_match
  // ---------------------------------------------------------------------------------

  /** `(s or "").lower().strip()` */
  function Normalized(s: string): string
  {
    Strip(Lower(s))
  }

  /** `sum(1 for a, b in zip(hn, t) if a == b)`: the positions, up to the shorter
      length, where the two strings agree. */
  function Score(a: string, b: string): (n: nat)
    ensures n <= |a| && n <= |b|
  {
    if a == [] || b == [] then 0
    else (if a[0] == b[0] then 1 else 0) + Score(a[1..], b[1..])
  }

  /** The test of `fuzzy_match` on a normalised header `hn` and normalised target `t`. */
  predicate Hit(hn: string, t: string)
  {
    t != [] && (IsSubstring(t, hn) || Score(hn, t) >= Max(|t| - 1, 0))
  }

  /** The test of `fuzzy_match` for one header against the normalised target `t`. */
  predicate Matches(h: string, t: string)
  {
    Hit(Normalized(h), t)
  }

  /** The headers whose normal form under `norm` hits `t`, in their order. */
  function FilterBy(headers: seq<string>, t: string, norm: string -> string): (r: seq<string>)
    ensures |r| <= |headers|
  {
    if headers == [] then []
    else
      var h := headers[|headers| - 1];
      FilterBy(headers[..|headers| - 1], t, norm) + (if Hit(norm(h), t) then [h] else [])
  }

  /** The headers that match the normalised target `t`, in their order. */
  function Kept(headers: seq<string>, t: string): (r: seq<string>)
    ensures |r| <= |headers|
  {
    FilterBy(headers, t, Normalized)
  }

  /** The loop of `fuzzy_match`, over a normalisation `norm` of the headers. */
  method KeepMatching(headers: seq<string>, t: string, norm: string -> string) returns (out: seq<string>)
    ensures out == FilterBy(headers, t, norm)
  {
    out := [];
    for i := 0 to |headers|
      invariant out == FilterBy(headers[..i], t, norm)
    {
      var h := headers[i];
      var hn := norm(h);
      var score := Score(hn, t);
      assert headers[..i + 1][..i] == headers[..i];
      if t != [] && (IsSubstring(t, hn) || score >= Max(|t| - 1, 0)) {
        out := out + [h];
      }
    }
    assert headers[..|headers|] == headers;
  }

  /** `fuzzy_match(headers, target)` */
  method FuzzyMatch(headers: seq<string>, target: string) returns (out: seq<string>)
    ensures out == Kept(headers, Normalized(target))
  {
    var t := Normalized(target);
    out := KeepMatching(headers, t, Normalized);
  }

  /** A header is kept exactly when its normal form hits the target. */
  lemma {:induction false} FilterByIff(headers: seq<string>, t: string, norm: string -> string, h: string)
    ensures h in FilterBy(headers, t, norm) <==> h in headers && Hit(norm(h), t)
    decreases |headers|
  {
    if headers != [] {
      var prefix := headers[..|headers| - 1];
      FilterByIff(prefix, t, norm, h);
      assert headers == prefix + [headers[|headers| - 1]];
    }
  }

  /** When every header hits, all are kept in their order. */
  lemma {:induction false} FilterByAll(headers: seq<string>, t: string, norm: string -> string)
    requires forall k | 0 <= k < |headers| :: Hit(norm(headers[k]), t)
    ensures FilterBy(headers, t, norm) == headers
    decreases |headers|
  {
    if headers != [] {
      FilterByAll(headers[..|headers| - 1], t, norm);
    }
  }

  /** A header is kept by `fuzzy_match` exactly when it matches. */
  lemma KeptIff(headers: seq<string>, t: string, h: string)
    ensures h in Kept(headers, t) <==> h in headers && Matches(h, t)
  {
    FilterByIff(headers, t, Normalized, h);
  }

  /** When every header matches, `fuzzy_match` returns them all in their order. */
  lemma KeptAll(headers: seq<string>, t: string)
    requires forall k | 0 <= k < |headers| :: Matches(headers[k], t)
    ensures Kept(headers, t) == headers
  {
    FilterByAll(headers, t, Normalized);
  }

  /** A blank target matches nothing. */
  lemma BlankTargetKeepsNothing(headers: seq<string>)
    ensures Kept(headers, []) == []
  {
    if Kept(headers, []) != [] {
      KeptIff(headers, [], Kept(headers, [])[0]);
    }
  }

  lemma {:induction false} ScoreSelf(a: string)
    ensures Score(a, a) == |a|
    decreases |a|
  {
    if a != [] {
      ScoreSelf(a[1..]);
    }
  }

  /** A header that normalises to the target is kept. */
  lemma ExactHeaderMatches(h: string, t: string)
    requires t != [] && Normalized(h) == t
    ensures Matches(h, t)
  {
    assert OccursAt(t, Normalized(h), 0);
  }

  /** A target of one character matches every header: the score threshold
      `len(t) - 1` is then 0. */
  lemma OneCharacterTargetMatchesAll(h: string, t: string)
    requires |t| == 1
    ensures Matches(h, t)
  {
  }

  // ---------------------------------------------------------------------------------
  // detect_duplicates
  // ---------------------------------------------------------------------------------

  /** `r[i] if i < len(r) else ""` */
  function Cell(row: seq<string>, i: nat): string
  {
    if i < |row| then row[i] else ""
  }

  /** The key tuple of a row for the key columns at `idx`. */
  function KeyOf(row: seq<string>, idx: seq<nat>): (key: seq<string>)
    ensures |key| == |idx|
    ensures forall j | 0 <= j < |idx| :: key[j] == Cell(row, idx[j])
  {
    seq(|idx|, j requires 0 <= j < |idx| => Cell(row, idx[j]))
  }

  /** `[hdr.index(c) for c in key_columns]`, or None where `index` raises
      `ValueError`. */
  function KeyIndices(hdr: seq<string>, keys: seq<string>): (r: Option<seq<nat>>)
    ensures r.None? <==> exists j | 0 <= j < |keys| :: keys[j] !in hdr
    ensures r.Some? ==> |r.value| == |keys|
    ensures r.Some? ==> forall j | 0 <= j < |keys| ::
      r.value[j] < |hdr| && hdr[r.value[j]] == keys[j] && keys[j] !in hdr[..r.value[j]]
  {
    if keys == [] then Some([])
    else
      match Find(hdr, keys[0], 0, |hdr|)
      case None => None
      case Some(i) =>
        match KeyIndices(hdr, keys[1..])
        case None => None
        case Some(rest) =>
          assert forall j | 1 <= j < |keys| :: keys[j] == keys[1..][j - 1];
          Some([i] + rest)
  }

  /** The keys of the rows read so far. */
  function KeySet(rows: seq<seq<string>>, idx: seq<nat>): set<seq<string>>
  {
    if rows == [] then {} else KeySet(rows[..|rows| - 1], idx) + {KeyOf(rows[|rows| - 1], idx)}
  }

  /** The rows whose key repeats that of an earlier row, in their order; the first row
      is never one of them. */
  function Repeats(rows: seq<seq<string>>, idx: seq<nat>): (r: seq<seq<string>>)
    ensures rows == [] || |r| < |rows|
  {
    if rows == [] then []
    else
      var prefix, r := rows[..|rows| - 1], rows[|rows| - 1];
      Repeats(prefix, idx) + (if KeyOf(r, idx) in KeySet(prefix, idx) then [r] else [])
  }

  /** What `detect_duplicates(data, key_columns)` returns: nothing without data, without
      key columns or when a key column is not in the header row; otherwise the repeated
      rows below the header. */
  function Duplicates(data: seq<seq<string>>, keys: seq<string>): (r: seq<seq<string>>)
    ensures r == [] || |r| + 2 <= |data|
  {
    if data == [] || keys == [] then []
    else
      match KeyIndices(data[0], keys)
      case None => []
      case Some(idx) => Repeats(data[1..], idx)
  }

  /** `detect_duplicates(data, key_columns)` */
  method DetectDuplicates(data: seq<seq<string>>, keys: seq<string>) returns (dupes: seq<seq<string>>)
    ensures dupes == Duplicates(data, keys)
  {
    if data == [] || keys == [] {
      return [];
    }
    var found := KeyIndices(data[0], keys);
    if found.None? {
      return [];
    }
    var idx := found.value;
    var rows := data[1..];
    var seen: set<seq<string>> := {};
    dupes := [];
    for i := 0 to |rows|
      invariant seen == KeySet(rows[..i], idx)
      invariant dupes == Repeats(rows[..i], idx)
    {
      var r := rows[i];
      var key := KeyOf(r, idx);
      assert rows[..i + 1][..i] == rows[..i];
      if key in seen {
        dupes := dupes + [r];
      } else {
        seen := seen + {key};
      }
    }
    assert rows[..|rows|] == rows;
  }

  /** Every row either opens a new key or is reported: the number of repeats and the
      number of distinct keys add up to the number of rows. */
  lemma {:induction false} RepeatsCount(rows: seq<seq<string>>, idx: seq<nat>)
    ensures |Repeats(rows, idx)| + |KeySet(rows, idx)| == |rows|
    decreases |rows|
  {
    if rows != [] {
      var prefix := rows[..|rows| - 1];
      RepeatsCount(prefix, idx);
      var seen, k := KeySet(prefix, idx), KeyOf(rows[|rows| - 1], idx);
      if k in seen {
        assert seen + {k} == seen;
      } else {
        assert |seen + {k}| == |seen| + 1;
      }
    }
  }

  /** The number of rows with the given key. */
  function KeyCount(rows: seq<seq<string>>, key: seq<string>, idx: seq<nat>): nat
  {
    if rows == [] then 0
    else KeyCount(rows[..|rows| - 1], key, idx) + (if KeyOf(rows[|rows| - 1], idx) == key then 1 else 0)
  }

  lemma {:induction false} KeySetCount(rows: seq<seq<string>>, idx: seq<nat>, key: seq<string>)
    ensures key in KeySet(rows, idx) <==> KeyCount(rows, key, idx) >= 1
    decreases |rows|
  {
    if rows != [] {
      KeySetCount(rows[..|rows| - 1], idx, key);
    }
  }

  /** A reported row is one of the rows, and its key is shared with another row: a row
      whose key is unique is never reported. */
  lemma {:induction false} RepeatsShareKey(rows: seq<seq<string>>, idx: seq<nat>, d: seq<string>)
    requires d in Repeats(rows, idx)
    ensures d in rows && KeyCount(rows, KeyOf(d, idx), idx) >= 2
    decreases |rows|
  {
    var prefix, r := rows[..|rows| - 1], rows[|rows| - 1];
    assert rows == prefix + [r];
    if d in Repeats(prefix, idx) {
      RepeatsShareKey(prefix, idx, d);
    } else {
      assert d == r && KeyOf(r, idx) in KeySet(prefix, idx);
      KeySetCount(prefix, idx, KeyOf(r, idx));
    }
  }

  // ---------------------------------------------------------------------------------
  // norm_row (inside insert_into_sqlite)
  // ---------------------------------------------------------------------------------

  /** `norm_row(r)` for a table of `width` columns: with `empty_as_null`, empty cells
      become NULL (None); the row is then padded with empty strings and cut to the width.
      */
  function NormRow(row: seq<string>, width: nat, emptyAsNull: bool): (r: seq<Option<string>>)
    ensures |r| == width
    ensures forall k | 0 <= k < width :: r[k].None? <==> (k < |row| && emptyAsNull && row[k] == "")
    ensures forall k | 0 <= k < width :: r[k].Some? ==> r[k].value == Cell(row, k)
  {
    var vals := seq(|row|, k requires 0 <= k < |row| => if emptyAsNull && row[k] == "" then None else Some(row[k]));
    var padded := vals + seq(Max(0, width - |vals|), _ => Some(""));
    padded[..width]
  }
}
