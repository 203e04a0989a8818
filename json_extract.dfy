/** Finding the first JSON block in messy text (`strip_leading_noise`,
    `tidy_text_and_find_json` with its inner `_try_blocks`, and `_loose_json_fixes`,
    php_to_json.py). JSON parsing and printing, `html.unescape` and the two quoting
    rewrites of the loose fixes are given as functions (`JsonTools`). */
module JsonExtract {
  import opened PySeq
  import opened PyText

  /** The library calls the extraction relies on:
      `unescape` is `html.unescape`;
      `roundTrip(t)` is `json.dumps(json.loads(t), ensure_ascii=False)`, None where
      `json.loads` raises;
      `quoteKeys` and `quoteValues` are the first two rewrites of `_loose_json_fixes`
      (single-quoted keys and single-quoted string values to double quotes). */
  datatype JsonTools = JsonTools(
    unescape: string -> string,
    roundTrip: string -> Option<string>,
    quoteKeys: string -> string,
    quoteValues: string -> string)

  predicate IsOpening(c: char) { c == '{' || c == '[' }

  // ---------------------------------------------------------------------------------
  // strip_leading_noise
  // ---------------------------------------------------------------------------------

  /** The first index from `from` on holding `{` or `[`. */
  function FirstOpening(s: string, from: nat): (r: Option<nat>)
    ensures r.Some? ==> from <= r.value < |s| && IsOpening(s[r.value])
    ensures r.Some? ==> forall k | from <= k < r.value :: !IsOpening(s[k])
    ensures r.None? ==> forall k | from <= k < |s| :: !IsOpening(s[k])
    decreases |s| - from
  {
    if from >= |s| then None
    else if IsOpening(s[from]) then Some(from)
    else FirstOpening(s, from + 1)
  }

  /** `strip_leading_noise(s)`. The pattern
      `\A(?:\ufeff|[\x00-\x1F\x7F]+|[^\{\[]+)*(?=(\{|\[))` consumes any text holding no
      `{` or `[` (its first two alternatives are contained in the third) and must then
      see one, so it matches exactly the text before the first `{` or `[`, and does not
      match at all when there is none. */
  function StripLeadingNoise(s: string): (r: string)
    ensures |r| <= |s| && r == s[|s| - |r|..]
    ensures forall k | 0 <= k < |s| - |r| :: !IsOpening(s[k])
    ensures (exists k | 0 <= k < |s| :: IsOpening(s[k])) ==> r != [] && IsOpening(r[0])
    ensures (forall k | 0 <= k < |s| :: !IsOpening(s[k])) ==> r == s
  {
    match FirstOpening(s, 0)
    case None => s
    case Some(k) => s[k..]
  }

  /** Stripping twice strips nothing more. */
  lemma StripLeadingNoiseIdempotent(s: string)
    ensures StripLeadingNoise(StripLeadingNoise(s)) == StripLeadingNoise(s)
  {
    var r := StripLeadingNoise(s);
    if r != [] && IsOpening(r[0]) {
      assert FirstOpening(r, 0) == Some(0);
    }
  }

  // ---------------------------------------------------------------------------------
  // The bracket that closes a candidate block
  // ---------------------------------------------------------------------------------

  /** The `depth` of `_try_blocks` after scanning `s[start..j]`: one up for each opening
      bracket, one down for each closing one. */
  function Depth(s: string, start: nat, j: nat, open: char, close: char): int
    requires start <= j <= |s|
    decreases j - start
  {
    if j == start then 0
    else Depth(s, start, j - 1, open, close) + (if s[j - 1] == open then 1 else if s[j - 1] == close then -1 else 0)
  }

  /** The depth is the number of opening minus the number of closing brackets scanned. */
  lemma {:induction false} DepthCounts(s: string, start: nat, j: nat, open: char, close: char)
    requires start <= j <= |s| && open != close
    ensures Depth(s, start, j, open, close) == Count(s[start..j], open) - Count(s[start..j], close)
    decreases j - start
  {
    if j > start {
      DepthCounts(s, start, j - 1, open, close);
      var pre, c := s[start..j - 1], s[j - 1];
      assert s[start..j] == pre + [c];
      CountAppend(pre, c, open);
      CountAppend(pre, c, close);
    }
  }

  lemma DepthStep(s: string, start: nat, j: nat, open: char, close: char)
    requires start <= j < |s|
    ensures Depth(s, start, j + 1, open, close)
      == Depth(s, start, j, open, close)
         + (if s[j] == open then 1 else if s[j] == close then -1 else 0)
  {
  }

  /** The scan of `_try_blocks` from index `i` with the depth reached so far: the index
      at which a closing bracket brings the depth back to zero. */
  function CloseFrom(s: string, i: nat, depth: int, open: char, close: char): (r: Option<nat>)
    requires i <= |s|
    ensures r.Some? ==> i <= r.value < |s| && s[r.value] == close
    decreases |s| - i
  {
    if i == |s| then None
    else if s[i] == open then CloseFrom(s, i + 1, depth + 1, open, close)
    else if s[i] == close then
      (if depth - 1 == 0 then Some(i) else CloseFrom(s, i + 1, depth - 1, open, close))
    else CloseFrom(s, i + 1, depth, open, close)
  }

  /** Where the block opened at `start` closes, if it does. */
  function MatchingClose(s: string, start: nat, open: char, close: char): (r: Option<nat>)
    requires start < |s|
    ensures r.Some? ==> start <= r.value < |s| && s[r.value] == close
  {
    CloseFrom(s, start, 0, open, close)
  }

  /** Every prefix `s[start..j]` with `start < j <= upto` holds more opening than
      closing brackets. */
  predicate OpenThrough(s: string, start: nat, upto: nat, open: char, close: char)
    requires start <= upto <= |s|
  {
    forall j | start < j <= upto :: Depth(s, start, j, open, close) > 0
  }

  lemma {:induction false} CloseFromBalanced(s: string, start: nat, i: nat, depth: int, open: char, close: char)
    requires start < i <= |s| && open != close
    requires depth == Depth(s, start, i, open, close) && OpenThrough(s, start, i, open, close)
    ensures var r := CloseFrom(s, i, depth, open, close);
      && (r.Some? ==> Depth(s, start, r.value + 1, open, close) == 0
                      && OpenThrough(s, start, r.value, open, close))
      && (r.None? ==> OpenThrough(s, start, |s|, open, close))
    decreases |s| - i, 1
  {
    if i < |s| {
      if s[i] == close && depth - 1 == 0 {
        DepthStep(s, start, i, open, close);
        assert CloseFrom(s, i, depth, open, close) == Some(i);
      } else {
        CloseFromStep(s, start, i, depth, open, close);
      }
    }
  }

  lemma {:induction false} CloseFromStep(s: string, start: nat, i: nat, depth: int, open: char, close: char)
    requires start < i < |s| && open != close
    requires depth == Depth(s, start, i, open, close) && OpenThrough(s, start, i, open, close)
    requires !(s[i] == close && depth - 1 == 0)
    ensures var r := CloseFrom(s, i, depth, open, close);
      && (r.Some? ==> Depth(s, start, r.value + 1, open, close) == 0
                      && OpenThrough(s, start, r.value, open, close))
      && (r.None? ==> OpenThrough(s, start, |s|, open, close))
    decreases |s| - i, 0
  {
    assert depth > 0;
    DepthStep(s, start, i, open, close);
    var d := CloseFromNext(s, i, depth, open, close);
    assert d == Depth(s, start, i + 1, open, close) > 0;
    OpenThroughExtend(s, start, i, open, close);
    CloseFromBalanced(s, start, i + 1, d, open, close);
  }

  /** One step of the scan past a character that does not close the block. */
  lemma CloseFromNext(s: string, i: nat, depth: int, open: char, close: char) returns (d: int)
    requires i < |s| && !(s[i] == close && depth - 1 == 0)
    ensures d == depth + (if s[i] == open then 1 else if s[i] == close then -1 else 0)
    ensures CloseFrom(s, i, depth, open, close) == CloseFrom(s, i + 1, d, open, close)
  {
    d := depth + (if s[i] == open then 1 else if s[i] == close then -1 else 0);
  }

  lemma OpenThroughExtend(s: string, start: nat, i: nat, open: char, close: char)
    requires start <= i < |s|
    requires OpenThrough(s, start, i, open, close) && Depth(s, start, i + 1, open, close) > 0
    ensures OpenThrough(s, start, i + 1, open, close)
  {
  }

  /** The candidate `s[start..e + 1]` of `_try_blocks` is the shortest balanced block
      from `start`: it ends with the closing bracket, holds as many opening as closing
      brackets, and every shorter nonempty prefix holds more opening ones. With no
      candidate, no prefix ever balances. */
  lemma MatchingCloseBalanced(s: string, start: nat, open: char, close: char)
    requires start < |s| && s[start] == open && open != close
    ensures var r := MatchingClose(s, start, open, close);
      && (r.Some? ==> start < r.value < |s| && s[r.value] == close
                      && Count(s[start..r.value + 1], open) == Count(s[start..r.value + 1], close)
                      && OpenThrough(s, start, r.value, open, close))
      && (r.None? ==> OpenThrough(s, start, |s|, open, close))
  {
    DepthStep(s, start, start, open, close);
    CloseFromBalanced(s, start, start + 1, 1, open, close);
    var r := MatchingClose(s, start, open, close);
    if r.Some? {
      DepthCounts(s, start, r.value + 1, open, close);
    }
  }

  // ---------------------------------------------------------------------------------
  // _loose_json_fixes
  // ---------------------------------------------------------------------------------

  predicate IsClosing(c: char) { c == '}' || c == ']' }

  /** `re.sub(r',\s*([}\]])', r'\1', t)`: a comma followed, after white space, by a
      closing bracket is dropped together with that white space; one pass, left to
      right. */
  function DropTrailingCommas(t: string): (r: string)
    ensures |r| <= |t|
    decreases |t|
  {
    if t == [] then []
    else if t[0] == ',' then
      var rest := DropWhile(t[1..], IsSpace);
      if rest != [] && IsClosing(rest[0]) then [rest[0]] + DropTrailingCommas(rest[1..])
      else [','] + DropTrailingCommas(t[1..])
    else [t[0]] + DropTrailingCommas(t[1..])
  }

  /** The characters of `t` other than commas and white space. */
  function Solid(t: string): string
  {
    if t == [] then []
    else (if t[0] == ',' || IsSpace(t[0]) then [] else [t[0]]) + Solid(t[1..])
  }

  lemma {:induction false} SolidConcat(a: string, b: string)
    ensures Solid(a + b) == Solid(a) + Solid(b)
  {
    if a == [] {
      assert a + b == b;
    } else {
      assert (a + b)[1..] == a[1..] + b;
      SolidConcat(a[1..], b);
    }
  }

  lemma {:induction false} SolidOfSpaces(t: string)
    requires forall k | 0 <= k < |t| :: IsSpace(t[k])
    ensures Solid(t) == []
  {
    if t != [] {
      SolidOfSpaces(t[1..]);
    }
  }

  /** Dropping trailing commas removes only commas and white space. */
  lemma {:induction false} DropTrailingCommasKeepsSolid(t: string)
    ensures Solid(DropTrailingCommas(t)) == Solid(t)
    decreases |t|
  {
    if t != [] {
      if t[0] == ',' {
        var rest := DropWhile(t[1..], IsSpace);
        if rest != [] && IsClosing(rest[0]) {
          DropTrailingCommasKeepsSolid(rest[1..]);
          SolidConcat([rest[0]], DropTrailingCommas(rest[1..]));
          SolidAcrossGap(t, rest);
        } else {
          DropTrailingCommasKeepsSolid(t[1..]);
          SolidConcat([','], DropTrailingCommas(t[1..]));
          SolidConcat([','], t[1..]);
          assert t == [','] + t[1..];
        }
      } else {
        DropTrailingCommasKeepsSolid(t[1..]);
        SolidConcat([t[0]], DropTrailingCommas(t[1..]));
        SolidConcat([t[0]], t[1..]);
        assert t == [t[0]] + t[1..];
      }
    }
  }

  /** The commas and white space skipped before a closing bracket hold nothing solid. */
  lemma SolidAcrossGap(t: string, rest: string)
    requires t != [] && t[0] == ','
    requires rest == DropWhile(t[1..], IsSpace) && rest != []
    ensures Solid(t) == Solid(rest)
  {
    var gap := t[1..][..|t| - 1 - |rest|];
    DropWhileDropped(t[1..], IsSpace);
    DropWhileSuffix(t[1..], IsSpace);
    SolidOfSpaces(gap);
    assert t == ([','] + gap) + rest;
    SolidConcat([','] + gap, rest);
    SolidConcat([','], gap);
  }

  /** One pass is not enough: of two commas before a bracket only the second goes. */
  lemma DropTrailingCommasSinglePass(t: string)
    requires t == "[1,,]"
    ensures DropTrailingCommas(t) == "[1,]"
  {
    assert t[0] == '[' && t[1..] == "1,,]" && t[2..] == ",,]";
    CommaBeforeComma(t[2..]);
    assert DropTrailingCommas(t[1..]) == "1,]";
  }

  lemma CommaBeforeClose(u: string)
    requires u == ",]"
    ensures DropTrailingCommas(u) == "]"
  {
    var rest := u[1..];
    NotSpaces();
    DropWhileStops(rest, IsSpace);
    assert rest[1..] == [];
  }

  lemma CommaBeforeComma(u: string)
    requires u == ",,]"
    ensures DropTrailingCommas(u) == ",]"
  {
    var rest := u[1..];
    NotSpaces();
    DropWhileStops(rest, IsSpace);
    CommaBeforeClose(rest);
  }

  lemma NotSpaces()
    ensures !IsSpace(',') && !IsSpace(']')
  {
  }

  /** `_loose_json_fixes(txt)`: the three rewrites, then a strict parse. */
  function LooseJsonFixes(txt: string, tools: JsonTools): Option<string>
  {
    tools.roundTrip(DropTrailingCommas(tools.quoteValues(tools.quoteKeys(txt))))
  }

  // ---------------------------------------------------------------------------------
  // _try_blocks
  // ---------------------------------------------------------------------------------

  /** What `_try_blocks` makes of the start `start`: nothing unless `s[start]` opens a
      block that closes; otherwise the strict parse of the candidate, or failing that its
      loose repair. */
  function Attempt(s: string, start: nat, open: char, close: char, tools: JsonTools): (r: Option<string>)
    requires start < |s|
    ensures r.Some? ==> s[start] == open && MatchingClose(s, start, open, close).Some?
  {
    if s[start] != open then None
    else
      match MatchingClose(s, start, open, close)
      case None => None
      case Some(e) =>
        var candidate := s[start..e + 1];
        if tools.roundTrip(candidate).Some? then tools.roundTrip(candidate)
        else LooseJsonFixes(candidate, tools)
  }

  /** `_try_blocks(open, close)` over the starts from `k` on; something is found only
      where `open` occurs. */
  function TryBlocksFrom(s: string, k: nat, open: char, close: char, tools: JsonTools): (r: Option<string>)
    requires k <= |s|
    ensures r.Some? ==> exists st | k <= st < |s| :: s[st] == open
    decreases |s| - k
  {
    if k == |s| then None
    else
      match Attempt(s, k, open, close, tools)
      case Some(j) => Some(j)
      case None => TryBlocksFrom(s, k + 1, open, close, tools)
  }

  /** The first start, in order, whose attempt succeeds decides the result; with none,
      the result is None. */
  lemma {:induction false} TryBlocksFirst(s: string, k: nat, open: char, close: char, tools: JsonTools)
    requires k <= |s|
    ensures var r := TryBlocksFrom(s, k, open, close, tools);
      && (r.None? <==> forall st | k <= st < |s| :: Attempt(s, st, open, close, tools).None?)
      && (r.Some? ==> exists st | k <= st < |s| ::
            && Attempt(s, st, open, close, tools) == r
            && forall st' | k <= st' < st :: Attempt(s, st', open, close, tools).None?)
    decreases |s| - k
  {
    if k < |s| {
      TryBlocksFirst(s, k + 1, open, close, tools);
      var r := TryBlocksFrom(s, k, open, close, tools);
      if Attempt(s, k, open, close, tools).Some? {
        assert Attempt(s, k, open, close, tools) == r;
      } else if r.Some? {
        var st :| k + 1 <= st < |s|
          && Attempt(s, st, open, close, tools) == r
          && forall st' | k + 1 <= st' < st :: Attempt(s, st', open, close, tools).None?;
        assert forall st' | k <= st' < st :: Attempt(s, st', open, close, tools).None?;
      }
    }
  }

  /** The inner loop of `_try_blocks` from `start`: the depth count up to the bracket
      that brings it back to zero. */
  method ScanBlock(s: string, start: nat, open: char, close: char) returns (e: Option<nat>)
    requires start < |s|
    ensures e == MatchingClose(s, start, open, close)
  {
    var depth := 0;
    var i := start;
    while i < |s|
      invariant start <= i <= |s|
      invariant CloseFrom(s, start, 0, open, close) == CloseFrom(s, i, depth, open, close)
      decreases |s| - i
    {
      var c := s[i];
      if c == open {
        depth := depth + 1;
      } else if c == close {
        depth := depth - 1;
        if depth == 0 {
          return Some(i);
        }
      }
      i := i + 1;
    }
    return None;
  }

  /** `_try_blocks(open, close)`: the starts in order, each scanned to its closing
      bracket and tried strictly, then loosely; the first success is returned. */
  method TryBlocks(s: string, open: char, close: char, tools: JsonTools) returns (r: Option<string>)
    ensures r == TryBlocksFrom(s, 0, open, close, tools)
  {
    var start := 0;
    while start < |s|
      invariant start <= |s|
      invariant TryBlocksFrom(s, 0, open, close, tools) == TryBlocksFrom(s, start, open, close, tools)
      decreases |s| - start
    {
      if s[start] == open {
        var e := ScanBlock(s, start, open, close);
        if e.Some? {
          var candidate := s[start..e.value + 1];
          var parsed := tools.roundTrip(candidate);
          if parsed.Some? {
            return parsed;
          }
          var repaired := LooseJsonFixes(candidate, tools);
          if repaired.Some? {
            return repaired;
          }
        }
      }
      start := start + 1;
    }
    return None;
  }

  // ---------------------------------------------------------------------------------
  // tidy_text_and_find_json
  // ---------------------------------------------------------------------------------

  /** The zero-width and bidirectional formatting characters `[\u200b-\u200f\u202a-\u202e]`. */
  predicate IsInvisible(c: char)
  {
    ('\U{200B}' <= c <= '\U{200F}') || ('\U{202A}' <= c <= '\U{202E}')
  }

  /** `re.sub(r'[\u200b-\u200f\u202a-\u202e]', '', s)` */
  function RemoveInvisible(s: string): (r: string)
    ensures forall k | 0 <= k < |r| :: !IsInvisible(r[k])
    ensures (forall k | 0 <= k < |s| :: !IsInvisible(s[k])) ==> r == s
  {
    if s == [] then []
    else (if IsInvisible(s[0]) then [] else [s[0]]) + RemoveInvisible(s[1..])
  }

  /** `.replace("\r\n", "\n").replace("\r", "\n")` */
  function NormalizeNewlines(s: string): (r: string)
  {
    ReplaceAll(ReplaceAll(s, "\r\n", "\n"), "\r", "\n")
  }

  /** Replacing a one-character pattern by text without it leaves none of it. */
  lemma {:induction false} ReplaceAllRemoves(s: string, c: char, rep: string)
    requires c !in rep
    ensures c !in ReplaceAll(s, [c], rep)
    decreases |s|
  {
    if |s| >= 1 {
      ReplaceAllRemoves(s[1..], c, rep);
      if s[..1] == [c] {
        assert s[1..] == s[|[c]|..];
      } else {
        assert s[0] != c by { assert s[..1][0] == s[0]; }
      }
    }
  }

  lemma NoCarriageReturn(s: string)
    ensures '\r' !in NormalizeNewlines(s)
  {
    ReplaceAllRemoves(ReplaceAll(s, "\r\n", "\n"), '\r', "\n");
  }

  /** The text the two passes of `_try_blocks` run on. */
  function Prepared(s: string, tools: JsonTools): string
  {
    StripLeadingNoise(RemoveInvisible(tools.unescape(NormalizeNewlines(Strip(s)))))
  }

  /** `tidy_text_and_find_json(s)`: found only when the prepared text holds an opening
      bracket. */
  function FindJson(s: string, tools: JsonTools): (r: Option<string>)
    ensures r.Some? ==> '{' in Prepared(s, tools) || '[' in Prepared(s, tools)
  {
    var p := Prepared(s, tools);
    match TryBlocksFrom(p, 0, '{', '}', tools)
    case Some(j) => Some(j)
    case None => TryBlocksFrom(p, 0, '[', ']', tools)
  }

  method TidyTextAndFindJson(s: string, tools: JsonTools) returns (r: Option<string>)
    ensures r == FindJson(s, tools)
  {
    var t := Strip(s);
    t := NormalizeNewlines(t);
    t := tools.unescape(t);
    t := RemoveInvisible(t);
    t := StripLeadingNoise(t);
    r := TryBlocks(t, '{', '}', tools);
    if r.None? {
      r := TryBlocks(t, '[', ']', tools);
    }
  }

  /** All `{` starts are tried before any `[` start: a result comes from the first `{`
      block that parses (strictly or loosely), and from a `[` block only when no `{`
      block does. */
  lemma FindJsonOrder(s: string, tools: JsonTools)
    ensures var p, r := Prepared(s, tools), FindJson(s, tools);
      && (r.Some? ==>
            || (exists st | 0 <= st < |p| ::
                  && p[st] == '{' && Attempt(p, st, '{', '}', tools) == r
                  && forall st' | 0 <= st' < st :: Attempt(p, st', '{', '}', tools).None?)
            || ((forall st | 0 <= st < |p| :: Attempt(p, st, '{', '}', tools).None?)
                && exists st | 0 <= st < |p| ::
                  && p[st] == '[' && Attempt(p, st, '[', ']', tools) == r
                  && forall st' | 0 <= st' < st :: Attempt(p, st', '[', ']', tools).None?))
      && (r.None? <==>
            forall st | 0 <= st < |p| ::
              Attempt(p, st, '{', '}', tools).None? && Attempt(p, st, '[', ']', tools).None?)
  {
    var p := Prepared(s, tools);
    TryBlocksFirst(p, 0, '{', '}', tools);
    TryBlocksFirst(p, 0, '[', ']', tools);
  }
}
