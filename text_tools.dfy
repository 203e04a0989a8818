/** The text transforms of the text toolbox (TextToyz2.0.py): the snake-case token and
    the line-by-line snake-casing built on it, emoji removal, and the line normaliser run
    after it. */
module TextTools {
  import opened PyText
  import DbPrep

  // ---------------------------------------------------------------------------------
  // to_snake_token and the line branch of snake_case_text
  // ---------------------------------------------------------------------------------

  /** `to_snake_token(s)`: every run of characters other than ASCII letters and digits
      becomes `_`, `_` is stripped from both ends and the result lower-cased. */
  function ToSnakeToken(s: string): (r: string)
    ensures r == [] || (r[0] != '_' && r[|r| - 1] != '_')
  {
    Lower(StripChar(SubRuns(s, DbPrep.NotAlnum, "_"), '_'))
  }

  /** The token holds only `[a-z0-9_]`, never `__`, and no `_` at either end; it is empty
      when `s` holds no ASCII letter or digit. */
  lemma ToSnakeTokenShape(s: string)
    ensures DbPrep.IsSnakeToken(ToSnakeToken(s))
    ensures (forall k | 0 <= k < |s| :: !IsAsciiAlnum(s[k])) ==> ToSnakeToken(s) == []
  {
    DbPrep.SubstitutedTokenShape(s);
  }

  /** A snake-case token is its own token. */
  lemma ToSnakeTokenFixesTokens(s: string)
    requires DbPrep.IsSnakeToken(s)
    ensures ToSnakeToken(s) == s
  {
    DbPrep.SubstitutionFixesSnakeTokens(s);
    DbPrep.StripCharFixesSnakeTokens(s);
    DbPrep.LowerFixesSnakeTokens(s);
  }

  /** `to_snake_token` is idempotent. */
  lemma ToSnakeTokenIdempotent(s: string)
    ensures ToSnakeToken(ToSnakeToken(s)) == ToSnakeToken(s)
  {
    ToSnakeTokenShape(s);
    ToSnakeTokenFixesTokens(ToSnakeToken(s));
  }

  /** One line of the line branch: a blank line stays as it is, any other line becomes its
      token. */
  function SnakeLine(line: string): string
  {
    if Strip(line) != [] then ToSnakeToken(line) else line
  }

  /** `[f(ln) for ln in lines]` */
  function Each(lines: seq<string>, f: string -> string): (r: seq<string>)
    ensures |r| == |lines|
    ensures forall k | 0 <= k < |lines| :: r[k] == f(lines[k])
    decreases |lines|
  {
    if lines == [] then [] else Each(lines[..|lines| - 1], f) + [f(lines[|lines| - 1])]
  }

  /** `"\n".join(f(ln) for ln in text.splitlines())` */
  function MapLines(text: string, f: string -> string): string
  {
    JoinLines(Each(SplitLines(text), f))
  }

  /** The branch of `snake_case_text` taken when the text is not JSON. */
  function SnakeCaseLines(text: string): string
  {
    MapLines(text, SnakeLine)
  }

  /** The lines are converted one for one: blank lines are kept verbatim, every other line
      becomes a snake-case token. */
  lemma SnakeLinesSpec(lines: seq<string>)
    ensures |Each(lines, SnakeLine)| == |lines|
    ensures forall k | 0 <= k < |lines| :: Strip(lines[k]) == [] ==> Each(lines, SnakeLine)[k] == lines[k]
    ensures forall k | 0 <= k < |lines| :: Strip(lines[k]) != [] ==>
      Each(lines, SnakeLine)[k] == ToSnakeToken(lines[k]) && DbPrep.IsSnakeToken(Each(lines, SnakeLine)[k])
  {
    forall k | 0 <= k < |lines| && Strip(lines[k]) != []
      ensures DbPrep.IsSnakeToken(ToSnakeToken(lines[k]))
    {
      ToSnakeTokenShape(lines[k]);
    }
  }

  lemma SnakeCharsAreNotSpace(s: string)
    requires DbPrep.IsSnakeToken(s)
    ensures forall k | 0 <= k < |s| :: !IsSpace(s[k]) && !IsLineBreak(s[k])
  {
  }

  /** Converting a line twice is converting it once. */
  lemma SnakeLineIdempotent(line: string)
    ensures SnakeLine(SnakeLine(line)) == SnakeLine(line)
  {
    if Strip(line) != [] {
      var t := ToSnakeToken(line);
      ToSnakeTokenShape(line);
      SnakeCharsAreNotSpace(t);
      if t != [] {
        assert !IsSpace(t[0]);
      }
      ToSnakeTokenIdempotent(line);
    }
  }

  /** A converted line holds no line break when the original line holds none. */
  lemma SnakeLineNoBreak(line: string)
    requires NoBreak(line)
    ensures NoBreak(SnakeLine(line))
  {
    if Strip(line) != [] {
      ToSnakeTokenShape(line);
      SnakeCharsAreNotSpace(ToSnakeToken(line));
    }
  }

  /** A line map that keeps lines free of breaks and is idempotent on them is idempotent
      on the text, as long as the last line does not become empty (an empty last line is
      lost when the joined text is split again). */
  lemma MapLinesIdempotent(text: string, f: string -> string)
    requires forall l | NoBreak(l) :: NoBreak(f(l)) && f(f(l)) == f(l)
    requires SplitLines(text) != [] ==> f(SplitLines(text)[|SplitLines(text)| - 1]) != []
    ensures MapLines(MapLines(text, f), f) == MapLines(text, f)
  {
    var outs := Each(SplitLines(text), f);
    SplitJoinLines(outs);
    assert Each(outs, f) == outs;
  }

  /** Snake-casing a text a second time changes nothing, as long as its last line does
      not become empty. */
  lemma SnakeCaseLinesIdempotent(text: string)
    requires SplitLines(text) != [] ==> SnakeLine(SplitLines(text)[|SplitLines(text)| - 1]) != []
    ensures SnakeCaseLines(SnakeCaseLines(text)) == SnakeCaseLines(text)
  {
    forall l | NoBreak(l) ensures NoBreak(SnakeLine(l)) && SnakeLine(SnakeLine(l)) == SnakeLine(l) {
      SnakeLineNoBreak(l);
      SnakeLineIdempotent(l);
    }
    MapLinesIdempotent(text, SnakeLine);
  }

  // ---------------------------------------------------------------------------------
  // remove_emojis
  // ---------------------------------------------------------------------------------

  /** The character class of `_EMOJI_PATTERN`, range by range. */
  predicate IsEmoji(c: char)
  {
    || ('\U{1F600}' <= c <= '\U{1F64F}')
    || ('\U{1F300}' <= c <= '\U{1F5FF}')
    || ('\U{1F680}' <= c <= '\U{1F6FF}')
    || ('\U{1F1E0}' <= c <= '\U{1F1FF}')
    || ('\U{2700}' <= c <= '\U{27BF}')
    || ('\U{24C2}' <= c <= '\U{1F251}')
    || ('\U{1F900}' <= c <= '\U{1F9FF}')
    || ('\U{1FA70}' <= c <= '\U{1FAFF}')
  }

  /** The character class of `_INVISIBLES_PATTERN`: the zero-width joiner and non-joiner
      and the two variation selectors. */
  predicate IsInvisible(c: char)
  {
    c == '\U{200D}' || c == '\U{200C}' || c == '\U{FE0E}' || c == '\U{FE0F}'
  }

  /** `re.sub('[C]+', '', s)` for the class `C` given by `p`. */
  function Remove(s: string, p: char -> bool): (r: string)
    ensures |r| <= |s|
  {
    if s == [] then [] else (if p(s[0]) then [] else [s[0]]) + Remove(s[1..], p)
  }

  /** `remove_emojis(text)` */
  function RemoveEmojis(text: string): (r: string)
    ensures |r| <= |text|
  {
    Remove(Remove(text, IsEmoji), IsInvisible)
  }

  /** A character survives exactly when it is not in the class. */
  lemma {:induction false} RemoveMembers(s: string, p: char -> bool, c: char)
    ensures c in Remove(s, p) <==> c in s && !p(c)
    decreases |s|
  {
    if s != [] {
      RemoveMembers(s[1..], p, c);
      assert s == [s[0]] + s[1..];
    }
  }

  /** Removal distributes over concatenation: what is left keeps its order. */
  lemma {:induction false} RemoveAppend(a: string, b: string, p: char -> bool)
    ensures Remove(a + b, p) == Remove(a, p) + Remove(b, p)
    decreases |a|
  {
    if a != [] {
      RemoveAppend(a[1..], b, p);
      var h := if p(a[0]) then [] else [a[0]];
      assert (a + b)[0] == a[0] && (a + b)[1..] == a[1..] + b;
      assert Remove(a + b, p) == h + Remove(a[1..] + b, p);
    } else {
      assert a + b == b;
    }
  }

  /** A string with nothing from the class is left as it is. */
  lemma {:induction false} RemoveFixes(s: string, p: char -> bool)
    requires forall k | 0 <= k < |s| :: !p(s[k])
    ensures Remove(s, p) == s
    decreases |s|
  {
    if s != [] {
      RemoveFixes(s[1..], p);
    }
  }

  /** `remove_emojis` keeps exactly the characters outside both classes. */
  lemma RemoveEmojisMembers(text: string, c: char)
    ensures c in RemoveEmojis(text) <==> c in text && !IsEmoji(c) && !IsInvisible(c)
  {
    RemoveMembers(text, IsEmoji, c);
    RemoveMembers(Remove(text, IsEmoji), IsInvisible, c);
  }

  /** `remove_emojis` works character by character, in order. */
  lemma RemoveEmojisAppend(a: string, b: string)
    ensures RemoveEmojis(a + b) == RemoveEmojis(a) + RemoveEmojis(b)
  {
    RemoveAppend(a, b, IsEmoji);
    RemoveAppend(Remove(a, IsEmoji), Remove(b, IsEmoji), IsInvisible);
  }

  /** On one character: deleted when it is in either class, kept otherwise. */
  lemma RemoveEmojisChar(c: char)
    ensures RemoveEmojis([c]) == if IsEmoji(c) || IsInvisible(c) then [] else [c]
  {
    assert [c][1..] == [];
  }

  /** `remove_emojis` is idempotent. */
  lemma RemoveEmojisIdempotent(text: string)
    ensures RemoveEmojis(RemoveEmojis(text)) == RemoveEmojis(text)
  {
    var r := RemoveEmojis(text);
    forall k | 0 <= k < |r| ensures !IsEmoji(r[k]) && !IsInvisible(r[k]) {
      RemoveEmojisMembers(text, r[k]);
    }
    RemoveFixes(r, IsEmoji);
    RemoveFixes(r, IsInvisible);
  }

  /** As written, the range U+24C2 to U+1F251 takes in most of the Basic Multilingual
      Plane: Chinese text such as U+4E2D U+6587 is deleted entirely. */
  lemma RemoveEmojisDeletesChinese(text: string)
    requires text == "\U{4E2D}\U{6587}"
    ensures RemoveEmojis(text) == []
  {
    RemoveEmojisAppend([text[0]], [text[1]]);
    RemoveEmojisChar(text[0]);
    RemoveEmojisChar(text[1]);
    assert text == [text[0]] + [text[1]];
  }

  /** The emoji class with the overwide range read as the enclosed characters it is meant
      for: U+24C2 (circled M) and U+1F170 to U+1F251 (enclosed alphanumeric and
      ideographic supplements). */
  predicate IsEmojiIntended(c: char)
  {
    || ('\U{1F600}' <= c <= '\U{1F64F}')
    || ('\U{1F300}' <= c <= '\U{1F5FF}')
    || ('\U{1F680}' <= c <= '\U{1F6FF}')
    || ('\U{1F1E0}' <= c <= '\U{1F1FF}')
    || ('\U{2700}' <= c <= '\U{27BF}')
    || c == '\U{24C2}' || ('\U{1F170}' <= c <= '\U{1F251}')
    || ('\U{1F900}' <= c <= '\U{1F9FF}')
    || ('\U{1FA70}' <= c <= '\U{1FAFF}')
  }

  /** `remove_emojis` with the intended emoji class. */
  function RemoveEmojisIntended(text: string): (r: string)
    ensures |r| <= |text|
  {
    Remove(Remove(text, IsEmojiIntended), IsInvisible)
  }

  /** Below U+2700, every character but U+24C2 and the invisibles survives, and so does
      all of U+27C0 to U+1F16F: letters of every script, CJK included. */
  lemma RemoveEmojisIntendedKeepsText(text: string)
    requires forall k | 0 <= k < |text| ::
      (text[k] < '\U{2700}' && text[k] != '\U{24C2}' && !IsInvisible(text[k]))
      || ('\U{27C0}' <= text[k] <= '\U{1F16F}' && !IsInvisible(text[k]))
    ensures RemoveEmojisIntended(text) == text
  {
    RemoveFixes(text, IsEmojiIntended);
    RemoveFixes(text, IsInvisible);
  }

  /** The intended class is part of the written one, so the written function removes
      everything the intended one does, and more. */
  lemma RemoveEmojisRemovesMore(text: string)
    ensures RemoveEmojis(text) == Remove(Remove(RemoveEmojisIntended(text), IsEmoji), IsInvisible)
  {
    RemoveAbsorbs(text, IsEmojiIntended, IsEmoji);
    RemoveCommutes(Remove(text, IsEmojiIntended), IsInvisible, IsEmoji);
    RemoveFixesAfter(Remove(text, IsEmoji), IsInvisible);
  }

  /** Removing a smaller class first changes nothing once the larger class is removed. */
  lemma {:induction false} RemoveAbsorbs(s: string, p: char -> bool, q: char -> bool)
    requires forall c: char :: p(c) ==> q(c)
    ensures Remove(Remove(s, p), q) == Remove(s, q)
    decreases |s|
  {
    if s != [] {
      RemoveAbsorbs(s[1..], p, q);
      RemoveAppend(if p(s[0]) then [] else [s[0]], Remove(s[1..], p), q);
    }
  }

  /** Two removals can be done in either order. */
  lemma {:induction false} RemoveCommutes(s: string, p: char -> bool, q: char -> bool)
    ensures Remove(Remove(s, p), q) == Remove(Remove(s, q), p)
    decreases |s|
  {
    if s != [] {
      RemoveCommutes(s[1..], p, q);
      RemoveAppend(if p(s[0]) then [] else [s[0]], Remove(s[1..], p), q);
      RemoveAppend(if q(s[0]) then [] else [s[0]], Remove(s[1..], q), p);
    }
  }

  /** Removing a class a second time changes nothing. */
  lemma RemoveFixesAfter(s: string, p: char -> bool)
    ensures Remove(Remove(s, p), p) == Remove(s, p)
  {
    var r := Remove(s, p);
    forall k | 0 <= k < |r| ensures !p(r[k]) {
      RemoveMembers(s, p, r[k]);
    }
    RemoveFixes(r, p);
  }

  // ---------------------------------------------------------------------------------
  // normalize_after_removal
  // ---------------------------------------------------------------------------------

  predicate IsRuleChar(c: char) { c == '-' || c == '*' || c == '_' }

  /** `hr_pattern.match(line)`: apart from whitespace, the line is three or more copies
      of one of `-`, `*` and `_`. */
  predicate IsRule(line: string)
    ensures IsRule(line) ==> |line| >= 3
  {
    var t := Remove(line, IsSpace);
    |t| >= 3 && IsRuleChar(t[0]) && forall k | 0 <= k < |t| :: t[k] == t[0]
  }

  /** Only `s`'s own characters, spaces and hyphens. */
  ghost predicate CharsFrom(r: string, s: string)
  {
    forall c | c in r :: c in s || c == ' ' || c == '-'
  }

  /** `line.replace("\u00A0", " ")` */
  function ReplaceNbsp(line: string): string
  {
    if line == [] then []
    else [if line[0] == '\U{A0}' then ' ' else line[0]] + ReplaceNbsp(line[1..])
  }

  /** The class `[\u2010-\u2015\u2212]`: hyphens, dashes and the minus sign. */
  predicate IsDash(c: char) { ('\U{2010}' <= c <= '\U{2015}') || c == '\U{2212}' }

  /** `re.sub(r"[\u2010-\u2015\u2212]", " - ", line)` */
  function SpaceDashes(line: string): string
  {
    if line == [] then []
    else (if IsDash(line[0]) then " - " else [line[0]]) + SpaceDashes(line[1..])
  }

  predicate IsOpener(c: char) { c == '(' || c == '[' || c == '{' }
  predicate IsCloser(c: char) { c == ')' || c == ']' || c == '}' }
  predicate IsPunctuation(c: char) { c == ',' || c == '.' || c == ';' || c == ':' || c == '!' || c == '?' }

  /** `re.sub(r"([\(\[\{])\s+", r"\1", line)`: whitespace after an opening bracket
      goes. */
  function TightenOpeners(line: string): string
    decreases |line|
  {
    if line == [] then []
    else if IsOpener(line[0]) then [line[0]] + TightenOpeners(DropWhile(line[1..], IsSpace))
    else [line[0]] + TightenOpeners(line[1..])
  }

  /** `re.sub(r"\s+([C])", r"\1", line)` for the class `C` given by `q`: a run of
      whitespace goes when the character after it is in the class. */
  function TightenBefore(line: string, q: char -> bool): string
    decreases |line|
  {
    if line == [] then []
    else if IsSpace(line[0]) then
      var rest := DropWhile(line, IsSpace);
      if rest != [] && q(rest[0]) then [rest[0]] + TightenBefore(rest[1..], q)
      else line[..|line| - |rest|] + TightenBefore(rest, q)
    else [line[0]] + TightenBefore(line[1..], q)
  }

  /** `re.sub(r"[\(\[\{]\s*[\)\]\}]", "", line)`: an opening bracket, optional
      whitespace and a closing bracket of any kind go together. */
  function DropEmptyBrackets(line: string): string
    decreases |line|
  {
    if line == [] then []
    else if IsOpener(line[0]) then
      var rest := DropWhile(line[1..], IsSpace);
      if rest != [] && IsCloser(rest[0]) then DropEmptyBrackets(rest[1..])
      else [line[0]] + DropEmptyBrackets(line[1..])
    else [line[0]] + DropEmptyBrackets(line[1..])
  }

  /** `re.sub(r"[ \t\f\v]+", " ", line)` */
  function CollapseBlanks(line: string): string
  {
    SubRuns(line, IsHSpace, " ")
  }

  /** What the loop appends for one line that is not a rule. */
  function CleanLine(line: string): (r: string)
    ensures r == [] || !IsSpace(r[|r| - 1])
  {
    var line := ReplaceNbsp(line);
    var line := SpaceDashes(line);
    var line := TightenOpeners(line);
    var line := TightenBefore(line, IsCloser);
    var line := DropEmptyBrackets(line);
    var line := TightenBefore(line, IsPunctuation);
    var line := CollapseBlanks(line);
    RStrip(line)
  }

  /** What the loop appends for one line. */
  function NormalizeLine(line: string): string
  {
    if IsRule(line) then line else CleanLine(line)
  }

  /** The rewrites the loop applies, one after another, to a line that is not a rule. */
  method CleanLineSteps(line: string) returns (out: string)
    ensures out == CleanLine(line)
  {
    out := ReplaceNbsp(line);
    out := SpaceDashes(out);
    out := TightenOpeners(out);
    out := TightenBefore(out, IsCloser);
    out := DropEmptyBrackets(out);
    out := TightenBefore(out, IsPunctuation);
    out := CollapseBlanks(out);
    out := RStrip(out);
  }

  /** `normalize_after_removal(text)` */
  method NormalizeAfterRemoval(text: string) returns (r: string)
    ensures r == MapLines(text, NormalizeLine)
  {
    var lines := SplitLines(text);
    var processed: seq<string> := [];
    for i := 0 to |lines|
      invariant processed == Each(lines[..i], NormalizeLine)
    {
      var line := lines[i];
      assert lines[..i + 1][..i] == lines[..i];
      if IsRule(line) {
        processed := processed + [line];
        continue;
      }
      line := CleanLineSteps(line);
      processed := processed + [line];
    }
    assert lines[..|lines|] == lines;
    r := JoinLines(processed);
  }

  lemma {:induction false} ReplaceNbspChars(line: string)
    ensures '\U{A0}' !in ReplaceNbsp(line)
    ensures CharsFrom(ReplaceNbsp(line), line)
    decreases |line|
  {
    if line != [] {
      ReplaceNbspChars(line[1..]);
    }
  }

  lemma {:induction false} SpaceDashesChars(line: string)
    ensures CharsFrom(SpaceDashes(line), line)
    decreases |line|
  {
    if line != [] {
      SpaceDashesChars(line[1..]);
    }
  }

  lemma {:induction false} TightenOpenersChars(line: string)
    ensures CharsFrom(TightenOpeners(line), line)
    decreases |line|
  {
    if line != [] {
      if IsOpener(line[0]) {
        DropWhileSuffix(line[1..], IsSpace);
        TightenOpenersChars(DropWhile(line[1..], IsSpace));
      } else {
        TightenOpenersChars(line[1..]);
      }
    }
  }

  lemma {:induction false} TightenBeforeChars(line: string, q: char -> bool)
    ensures CharsFrom(TightenBefore(line, q), line)
    decreases |line|
  {
    if line != [] {
      if IsSpace(line[0]) {
        var rest := DropWhile(line, IsSpace);
        DropWhileSuffix(line, IsSpace);
        if rest != [] && q(rest[0]) {
          TightenBeforeChars(rest[1..], q);
        } else {
          TightenBeforeChars(rest, q);
        }
      } else {
        TightenBeforeChars(line[1..], q);
      }
    }
  }

  lemma {:induction false} DropEmptyBracketsChars(line: string)
    ensures CharsFrom(DropEmptyBrackets(line), line)
    decreases |line|
  {
    if line != [] {
      if IsOpener(line[0]) {
        var rest := DropWhile(line[1..], IsSpace);
        DropWhileSuffix(line[1..], IsSpace);
        if rest != [] && IsCloser(rest[0]) {
          DropEmptyBracketsChars(rest[1..]);
        } else {
          DropEmptyBracketsChars(line[1..]);
        }
      } else {
        DropEmptyBracketsChars(line[1..]);
      }
    }
  }

  /** A cleaned line has no trailing whitespace, no no-break space and no two neighbouring
      spaces, tabs, form feeds or vertical tabs, and only characters of the line, spaces
      and hyphens. */
  lemma CleanLineShape(line: string)
    ensures var r := CleanLine(line);
      && (r != [] ==> !IsSpace(r[|r| - 1]))
      && '\U{A0}' !in r
      && (forall k | 0 <= k < |r| - 1 :: !(IsHSpace(r[k]) && IsHSpace(r[k + 1])))
      && CharsFrom(r, line)
  {
    var a := ReplaceNbsp(line);
    ReplaceNbspChars(line);
    var a1 := SpaceDashes(a);
    SpaceDashesChars(a);
    var a2 := TightenOpeners(a1);
    TightenOpenersChars(a1);
    var a3 := TightenBefore(a2, IsCloser);
    TightenBeforeChars(a2, IsCloser);
    var a4 := DropEmptyBrackets(a3);
    DropEmptyBracketsChars(a3);
    var b := TightenBefore(a4, IsPunctuation);
    TightenBeforeChars(a4, IsPunctuation);
    assert CharsFrom(b, a);
    var c := CollapseBlanks(b);
    SubRunsSeparated(b, IsHSpace, ' ');
    var r := RStrip(c);
    RStripPrefix(c);
    assert forall k | 0 <= k < |r| :: r[k] == c[k];
  }

  /** Rule lines are copied as they are; every other output line is cleaned. */
  lemma NormalizeLineSpec(line: string)
    ensures IsRule(line) ==> NormalizeLine(line) == line
    ensures !IsRule(line) ==> var r := NormalizeLine(line);
      && (r != [] ==> !IsSpace(r[|r| - 1]))
      && '\U{A0}' !in r
      && (forall k | 0 <= k < |r| - 1 :: !(IsHSpace(r[k]) && IsHSpace(r[k + 1])))
  {
    CleanLineShape(line);
  }

  lemma NormalizeLineNoBreak(line: string)
    requires NoBreak(line)
    ensures NoBreak(NormalizeLine(line))
  {
    if !IsRule(line) {
      var r := CleanLine(line);
      CleanLineShape(line);
      forall k | 0 <= k < |r| ensures !IsLineBreak(r[k]) {
        assert r[k] in r;
      }
    }
  }

  /** One output line per input line: splitting the result gives the normalised lines, as
      long as the last of them is not empty. */
  lemma NormalizeAfterRemovalLines(text: string)
    requires SplitLines(text) != [] ==> NormalizeLine(SplitLines(text)[|SplitLines(text)| - 1]) != []
    ensures SplitLines(MapLines(text, NormalizeLine)) == Each(SplitLines(text), NormalizeLine)
  {
    var lines := SplitLines(text);
    forall k | 0 <= k < |lines| ensures NoBreak(NormalizeLine(lines[k])) {
      NormalizeLineNoBreak(lines[k]);
    }
    SplitJoinLines(Each(lines, NormalizeLine));
  }
}
