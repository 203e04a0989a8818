/** The shell clean-up run before decoding when the "cleanup" option is on
    (`safe_cleanup_shell_only`, php_to_json.py): every string token `s:<n>:"…";` is set
    aside behind a placeholder, the text around the tokens is unescaped and its spacing
    tidied, and the tokens are put back.

    The stashed text is a sequence of pieces: a character of the shell, or a slot standing
    for the k-th saved token (the placeholder `@@S<k>@@` of the source). None of the
    placeholder's characters is white space or one of `; : { }`, so the four `re.sub`
    passes treat a slot as one ordinary character; `html.unescape` is applied to the
    stretches of text between slots. */
module ShellCleanup {
  import opened PySeq
  import opened PyText

  datatype Piece = Ch(c: char) | Slot(k: nat)

  // ---------------------------------------------------------------------------------
  // The token pattern  s:(\d+):"((?:\\.|[^"\\])*)";
  // ---------------------------------------------------------------------------------

  /** End of the run of ASCII digits that starts at `i`. */
  function DigitsEnd(s: string, i: nat): (e: nat)
    requires i <= |s|
    ensures i <= e <= |s|
    ensures e < |s| ==> !IsAsciiDigit(s[e])
    decreases |s| - i
  {
    if i < |s| && IsAsciiDigit(s[i]) then DigitsEnd(s, i + 1) else i
  }

  /** Where `(?:\\.|[^"\\])*` stops when it starts at `i`: at the first quote that no
      backslash escapes, at a backslash with nothing after it, or at the end. No shorter
      repetition can be followed by a quote, so the pattern never backtracks into it. */
  function ContentEnd(s: string, i: nat): (e: nat)
    requires i <= |s|
    ensures i <= e <= |s|
    decreases |s| - i
  {
    if i == |s| || s[i] == '"' then i
    else if s[i] == '\\' then (if i + 1 < |s| then ContentEnd(s, i + 2) else i)
    else ContentEnd(s, i + 1)
  }

  /** The end of the string token that matches at `p`, if one does. */
  function TokenAt(s: string, p: nat): (r: Option<nat>)
    requires p <= |s|
    ensures r.Some? ==> p + 7 <= r.value <= |s|
    ensures r.Some? ==> s[p] == 's' && s[p + 1] == ':' && IsAsciiDigit(s[p + 2])
    ensures r.Some? ==> s[r.value - 2] == '"' && s[r.value - 1] == ';'
  {
    if p + 2 <= |s| && s[p] == 's' && s[p + 1] == ':' then
      var d := DigitsEnd(s, p + 2);
      if d > p + 2 && d + 2 <= |s| && s[d] == ':' && s[d + 1] == '"' then
        var e := ContentEnd(s, d + 2);
        if e + 2 <= |s| && s[e] == '"' && s[e + 1] == ';' then Some(e + 2) else None
      else None
    else None
  }

  // ---------------------------------------------------------------------------------
  // Slots
  // ---------------------------------------------------------------------------------

  /** The slot numbers of `ps`, in order. */
  function SlotsOf(ps: seq<Piece>): seq<nat>
  {
    if ps == [] then []
    else if ps[0].Slot? then [ps[0].k] + SlotsOf(ps[1..])
    else SlotsOf(ps[1..])
  }

  /** `[a, a + 1, …, b - 1]` */
  function Range(a: nat, b: nat): (r: seq<nat>)
    ensures |r| == if a <= b then b - a else 0
    ensures forall i | 0 <= i < |r| :: r[i] == a + i
    decreases b - a
  {
    if a >= b then [] else [a] + Range(a + 1, b)
  }

  lemma {:induction false} SlotsOfConcat(a: seq<Piece>, b: seq<Piece>)
    ensures SlotsOf(a + b) == SlotsOf(a) + SlotsOf(b)
  {
    if a != [] {
      assert (a + b)[1..] == a[1..] + b;
      SlotsOfConcat(a[1..], b);
    } else {
      assert a + b == b;
    }
  }

  /** Characters only: no slot. */
  predicate IsText(ps: seq<Piece>)
  {
    forall i | 0 <= i < |ps| :: ps[i].Ch?
  }

  lemma {:induction false} SlotsOfText(ps: seq<Piece>)
    requires IsText(ps)
    ensures SlotsOf(ps) == []
  {
    if ps != [] {
      SlotsOfText(ps[1..]);
    }
  }

  /** The pieces of a plain string. */
  function Chars(t: string): (ps: seq<Piece>)
    ensures |ps| == |t| && IsText(ps)
    ensures forall i | 0 <= i < |t| :: ps[i] == Ch(t[i])
  {
    if t == [] then [] else [Ch(t[0])] + Chars(t[1..])
  }

  /** The characters of `ps`. */
  function TextOf(ps: seq<Piece>): string
  {
    if ps == [] then [] else (if ps[0].Ch? then [ps[0].c] else []) + TextOf(ps[1..])
  }

  // ---------------------------------------------------------------------------------
  // Stashing the tokens
  // ---------------------------------------------------------------------------------

  /** `_STRING_TOKEN.sub(_stash, s)` from index `p` on, with `k` tokens saved before: the
      stashed text and the tokens saved from here on. The slots are numbered `k, k + 1, …`
      in order, one per saved token. */
  function StashFrom(s: string, p: nat, k: nat): (r: (seq<Piece>, seq<string>))
    requires p <= |s|
    decreases |s| - p
  {
    if p == |s| then ([], [])
    else
      match TokenAt(s, p)
      case Some(e) =>
        var t := StashFrom(s, e, k + 1);
        ([Slot(k)] + t.0, [s[p..e]] + t.1)
      case None =>
        var t := StashFrom(s, p + 1, k);
        ([Ch(s[p])] + t.0, t.1)
  }

  /** One step of the scan: the first piece, where the scan goes on, and the tokens
      saved on the way. */
  lemma StashUnfold(s: string, p: nat, k: nat) returns (q: nat, x: Piece, tok: seq<string>)
    requires p < |s|
    ensures p < q <= |s|
    ensures StashFrom(s, p, k) == ([x] + StashFrom(s, q, k + |tok|).0, tok + StashFrom(s, q, k + |tok|).1)
    ensures TokenAt(s, p).Some? ==> q == TokenAt(s, p).value && x == Slot(k) && tok == [s[p..q]]
    ensures TokenAt(s, p).None? ==> q == p + 1 && x == Ch(s[p]) && tok == []
  {
    match TokenAt(s, p)
    case Some(e) =>
      q, x, tok := e, Slot(k), [s[p..e]];
    case None =>
      q, x, tok := p + 1, Ch(s[p]), [];
      assert tok + StashFrom(s, q, k + |tok|).1 == StashFrom(s, q, k).1;
  }

  /** The slots of the stashed text are numbered `k, k + 1, …`, one per saved token. */
  lemma {:induction false} StashSlots(s: string, p: nat, k: nat)
    requires p <= |s|
    ensures SlotsOf(StashFrom(s, p, k).0) == Range(k, k + |StashFrom(s, p, k).1|)
    decreases |s| - p
  {
    if p < |s| {
      var q, x, tok := StashUnfold(s, p, k);
      var t := StashFrom(s, q, k + |tok|);
      StashSlots(s, q, k + |tok|);
      SlotsNext(x, t.0, k, |tok|, |t.1|);
    }
  }

  lemma SlotsNext(x: Piece, t: seq<Piece>, k: nat, m: nat, n: nat)
    requires SlotsOf(t) == Range(k + m, k + m + n)
    requires x.Slot? ==> x.k == k && m == 1
    requires x.Ch? ==> m == 0
    ensures SlotsOf([x] + t) == Range(k, k + m + n)
  {
    SlotsOfCons(x, t);
  }

  /** The first statement of `safe_cleanup_shell_only`, scanning the text once and
      appending each matched token to `saved`. */
  method Stash(s: string) returns (shell: seq<Piece>, saved: seq<string>)
    ensures (shell, saved) == StashFrom(s, 0, 0)
    ensures SlotsOf(shell) == Range(0, |saved|)
  {
    ghost var full := StashFrom(s, 0, 0);
    shell, saved := [], [];
    var p := 0;
    assert [] + full.0 == full.0 && [] + full.1 == full.1;
    while p < |s|
      invariant p <= |s|
      invariant full.0 == shell + StashFrom(s, p, |saved|).0
      invariant full.1 == saved + StashFrom(s, p, |saved|).1
      decreases |s| - p
    {
      var m := TokenAt(s, p);
      var p', shell', saved';
      if m.Some? {
        p', shell', saved' := m.value, shell + [Slot(|saved|)], saved + [s[p..m.value]];
      } else {
        p', shell', saved' := p + 1, shell + [Ch(s[p])], saved;
      }
      StashAdvance(s, p, shell, saved, p', shell', saved');
      p, shell, saved := p', shell', saved';
    }
    assert shell + [] == shell && saved + [] == saved;
    StashSlots(s, 0, 0);
  }

  /** One step of the stashing loop: what is still to come, after what is done, does not
      change. */
  lemma StashAdvance(s: string, p: nat, shell: seq<Piece>, saved: seq<string>,
                     p': nat, shell': seq<Piece>, saved': seq<string>)
    requires p < |s|
    requires TokenAt(s, p).Some? ==>
      p' == TokenAt(s, p).value && shell' == shell + [Slot(|saved|)] && saved' == saved + [s[p..p']]
    requires TokenAt(s, p).None? ==>
      p' == p + 1 && shell' == shell + [Ch(s[p])] && saved' == saved
    ensures p' <= |s|
    ensures shell + StashFrom(s, p, |saved|).0 == shell' + StashFrom(s, p', |saved'|).0
    ensures saved + StashFrom(s, p, |saved|).1 == saved' + StashFrom(s, p', |saved'|).1
  {
    var q, x, tok := StashUnfold(s, p, |saved|);
    var t := StashFrom(s, q, |saved| + |tok|);
    if TokenAt(s, p).Some? {
      SeqAssoc(shell, [x], t.0);
      SeqAssoc(saved, tok, t.1);
    } else {
      SeqAssoc(shell, [x], t.0);
      assert saved + (tok + t.1) == saved + t.1;
    }
  }

  lemma SeqAssoc<T>(a: seq<T>, b: seq<T>, c: seq<T>)
    ensures a + (b + c) == (a + b) + c
  {
  }

  // ---------------------------------------------------------------------------------
  // Putting the tokens back
  // ---------------------------------------------------------------------------------

  /** Every slot of `ps` names one of `n` saved tokens. */
  predicate SlotsBelow(ps: seq<Piece>, n: nat)
  {
    forall i | 0 <= i < |ps| :: ps[i].Slot? ==> ps[i].k < n
  }

  /** The text with every slot replaced by the token it stands for, in one pass. */
  function Restore(ps: seq<Piece>, saved: seq<string>): string
    requires SlotsBelow(ps, |saved|)
  {
    if ps == [] then []
    else
      assert SlotsBelow(ps[1..], |saved|) by {
        forall i | 0 <= i < |ps| - 1 ensures ps[1..][i] == ps[i + 1] { }
      }
      if ps[0].Slot? then saved[ps[0].k] + Restore(ps[1..], saved)
      else [ps[0].c] + Restore(ps[1..], saved)
  }

  /** Every slot of the stashed text names a saved token. */
  lemma {:induction false} StashSlotsBelow(s: string, p: nat, k: nat)
    requires p <= |s|
    ensures SlotsBelow(StashFrom(s, p, k).0, k + |StashFrom(s, p, k).1|)
    decreases |s| - p
  {
    if p < |s| {
      var q, x, tok := StashUnfold(s, p, k);
      var t := StashFrom(s, q, k + |tok|);
      StashSlotsBelow(s, q, k + |tok|);
      SlotsBelowCons(x, t.0, k + |tok| + |t.1|);
    }
  }

  lemma SlotsBelowCons(x: Piece, t: seq<Piece>, n: nat)
    requires SlotsBelow(t, n) && (x.Slot? ==> x.k < n)
    ensures SlotsBelow([x] + t, n)
  {
    assert forall i | 1 <= i < |t| + 1 :: ([x] + t)[i] == t[i - 1];
  }

  lemma RestoreCons(x: Piece, t: seq<Piece>, saved: seq<string>)
    requires SlotsBelow([x] + t, |saved|)
    ensures x.Slot? ==> x.k < |saved|
    ensures SlotsBelow(t, |saved|)
    ensures Restore([x] + t, saved) == (if x.Slot? then saved[x.k] else [x.c]) + Restore(t, saved)
  {
    assert ([x] + t)[0] == x;
    assert ([x] + t)[1..] == t;
    forall i | 0 <= i < |t| ensures t[i] == ([x] + t)[i + 1] { }
  }

  /** Stashing loses nothing: putting the tokens back gives the text scanned. */
  lemma {:induction false} StashRestore(s: string, p: nat, pre: seq<string>)
    requires p <= |s|
    ensures var r := StashFrom(s, p, |pre|);
      SlotsBelow(r.0, |pre + r.1|) && Restore(r.0, pre + r.1) == s[p..]
    decreases |s| - p
  {
    StashSlotsBelow(s, p, |pre|);
    if p < |s| {
      var q, x, tok := StashUnfold(s, p, |pre|);
      var t := StashFrom(s, q, |pre| + |tok|);
      StashRestore(s, q, pre + tok);
      SeqAssoc(pre, tok, t.1);
      if x.Slot? {
        ConsAt(pre, s[p..q], t.1);
      }
      RestoreCons(x, t.0, pre + (tok + t.1));
      RestoreJoin(s, p, q, x, t.0, pre + (tok + t.1));
    }
  }

  /** Restoring one more piece in front restores the text from one piece earlier. */
  lemma RestoreJoin(s: string, p: nat, q: nat, x: Piece, rest: seq<Piece>, all: seq<string>)
    requires p < q <= |s|
    requires SlotsBelow([x] + rest, |all|) && SlotsBelow(rest, |all|)
    requires x.Slot? ==> x.k < |all| && all[x.k] == s[p..q]
    requires x.Ch? ==> q == p + 1 && x.c == s[p]
    requires Restore(rest, all) == s[q..]
    ensures Restore([x] + rest, all) == s[p..]
  {
    RestoreCons(x, rest, all);
    SliceJoin(s, p, q);
    if x.Ch? {
      assert s[p..q] == [x.c];
    }
  }

  /** Every saved token is a match of the token pattern. */
  lemma {:induction false} StashedAreTokens(s: string, p: nat, k: nat, j: nat)
    requires p <= |s| && j < |StashFrom(s, p, k).1|
    ensures exists q, e | p <= q <= |s| && TokenAt(s, q) == Some(e) :: StashFrom(s, p, k).1[j] == s[q..e]
    decreases |s| - p
  {
    var q, x, tok := StashUnfold(s, p, k);
    var t := StashFrom(s, q, k + |tok|);
    if j < |tok| {
      assert (tok + t.1)[j] == s[p..q];
    } else {
      StashedAreTokens(s, q, k + |tok|, j - |tok|);
      assert (tok + t.1)[j] == t.1[j - |tok|];
    }
  }

  // ---------------------------------------------------------------------------------
  // Tidying the shell
  // ---------------------------------------------------------------------------------

  predicate IsWs(x: Piece) { x.Ch? && IsSpace(x.c) }

  predicate IsH(x: Piece) { x.Ch? && IsHSpace(x.c) }

  /** Length of the stretch of text at the front of `ps`. */
  function TextRun(ps: seq<Piece>): (n: nat)
    ensures n <= |ps| && IsText(ps[..n])
    ensures n < |ps| ==> ps[n].Slot?
    ensures ps != [] && ps[0].Ch? ==> n >= 1
  {
    if ps == [] || ps[0].Slot? then 0
    else
      var n := 1 + TextRun(ps[1..]);
      assert forall i | 1 <= i < n :: ps[..n][i] == ps[1..][..n - 1][i - 1];
      n
  }

  /** `html.unescape`, given as `unescape`, applied to each stretch of text between slots. */
  function UnescapeRuns(ps: seq<Piece>, unescape: string -> string): (r: seq<Piece>)
    ensures SlotsOf(r) == SlotsOf(ps)
    decreases |ps|
  {
    if ps == [] then []
    else if ps[0].Slot? then
      var t := UnescapeRuns(ps[1..], unescape);
      assert ([ps[0]] + t)[1..] == t;
      [ps[0]] + t
    else
      var n := TextRun(ps);
      var t := UnescapeRuns(ps[n..], unescape);
      var u := Chars(unescape(TextOf(ps[..n])));
      SlotsOfConcat(u, t);
      SlotsOfText(u);
      SlotsOfConcat(ps[..n], ps[n..]);
      SlotsOfText(ps[..n]);
      assert ps[..n] + ps[n..] == ps;
      u + t
  }

  /** `re.sub(r'[ \t\f\v]+', ' ', shell)` */
  function CollapseBlanks(ps: seq<Piece>): (r: seq<Piece>)
  {
    SubRuns(ps, IsH, [Ch(' ')])
  }

  /** A separator is a character the clean-up glues its neighbours to. */
  predicate WsBeside(c: char, x: Piece, y: Piece)
  {
    (IsWs(x) && y == Ch(c)) || (x == Ch(c) && IsWs(y))
  }

  /** No white space right before or right after a `c`. */
  predicate NoWsAround(ps: seq<Piece>, c: char)
  {
    forall i, j | 0 <= i && j == i + 1 < |ps| :: !WsBeside(c, ps[i], ps[j])
  }

  /** No two neighbouring characters of `[ \t\f\v]`. */
  predicate NoDoubleBlank(ps: seq<Piece>)
  {
    forall i, j | 0 <= i && j == i + 1 < |ps| :: !(IsH(ps[i]) && IsH(ps[j]))
  }

  /** The run of white space at the front of `ps` (possibly empty) is followed by a `c`. */
  predicate Glued(ps: seq<Piece>, c: char)
  {
    var rest := DropWhile(ps, IsWs);
    rest != [] && rest[0] == Ch(c)
  }

  /** `re.sub(r'\s*c\s*', 'c', shell)`: every run of white space that touches a `c`
      disappears, and nothing else changes. The result starts with the input's first
      element, or with the `c` a leading run of white space was glued to. */
  function TrimAround(ps: seq<Piece>, c: char): (r: seq<Piece>)
    requires !IsSpace(c)
    ensures r == [] <==> ps == []
    ensures ps != [] ==> r[0] == if IsWs(ps[0]) && Glued(ps, c) then Ch(c) else ps[0]
    ensures NoWsAround(r, c)
    decreases |ps|
  {
    if ps == [] then []
    else if ps[0] == Ch(c) then
      var t := TrimAround(DropWhile(ps[1..], IsWs), c);
      NoWsAroundCons(Ch(c), t, c);
      [Ch(c)] + t
    else if IsWs(ps[0]) && Glued(ps, c) then TrimAround(DropWhile(ps, IsWs), c)
    else
      var t := TrimAround(ps[1..], c);
      assert IsWs(ps[0]) && |ps| > 1 ==> DropWhile(ps[1..], IsWs) == DropWhile(ps, IsWs);
      NoWsAroundCons(ps[0], t, c);
      [ps[0]] + t
  }

  lemma NoWsAroundCons(x: Piece, t: seq<Piece>, c: char)
    requires NoWsAround(t, c) && (t != [] ==> !WsBeside(c, x, t[0]))
    ensures NoWsAround([x] + t, c)
  {
    var r := [x] + t;
    forall i | 1 <= i < |r| - 1 ensures !WsBeside(c, r[i], r[i + 1]) {
      assert r[i] == t[i - 1] && r[i + 1] == t[i];
    }
  }

  lemma NoDoubleBlankCons(x: Piece, t: seq<Piece>)
    requires NoDoubleBlank(t) && (t != [] ==> !(IsH(x) && IsH(t[0])))
    ensures NoDoubleBlank([x] + t)
  {
    var r := [x] + t;
    forall i | 1 <= i < |r| - 1 ensures !(IsH(r[i]) && IsH(r[i + 1])) {
      assert r[i] == t[i - 1] && r[i + 1] == t[i];
    }
  }

  /** The separators glued by the clean-up, in the order of its passes. */
  const SEPARATORS: seq<char> := [';', ':', '{', '}']

  /** The four passes around `;`, `:`, `{` and `}`. */
  function TrimSeparators(ps: seq<Piece>): (r: seq<Piece>)
  {
    TrimAround(TrimAround(TrimAround(TrimAround(ps, ';'), ':'), '{'), '}')
  }

  /** Everything between stashing and restoring: unescape, collapse blanks, glue the
      separators. */
  function TidyShell(ps: seq<Piece>, unescape: string -> string): (r: seq<Piece>)
  {
    TrimSeparators(CollapseBlanks(UnescapeRuns(ps, unescape)))
  }

  // ---------------------------------------------------------------------------------
  // What tidying keeps and what it establishes
  // ---------------------------------------------------------------------------------

  /** Dropping leading characters of a class keeps the slots. */
  lemma {:induction false} SlotsOfDrop(ps: seq<Piece>, p: Piece -> bool)
    requires forall x :: p(x) ==> x.Ch?
    ensures SlotsOf(DropWhile(ps, p)) == SlotsOf(ps)
  {
    if ps != [] && p(ps[0]) {
      SlotsOfDrop(ps[1..], p);
    }
  }

  lemma SlotsOfCons(x: Piece, t: seq<Piece>)
    ensures SlotsOf([x] + t) == (if x.Slot? then [x.k] else []) + SlotsOf(t)
  {
    assert ([x] + t)[1..] == t;
  }

  /** Gluing a separator drops white space only: the slots stay, in order. */
  lemma {:induction false} TrimAroundSlots(ps: seq<Piece>, c: char)
    requires !IsSpace(c)
    ensures SlotsOf(TrimAround(ps, c)) == SlotsOf(ps)
    decreases |ps|
  {
    if ps == [] {
    } else if ps[0] == Ch(c) {
      var y := DropWhile(ps[1..], IsWs);
      TrimAroundSlots(y, c);
      SlotsOfDrop(ps[1..], IsWs);
      SlotsOfCons(Ch(c), TrimAround(y, c));
      SlotsOfCons(ps[0], ps[1..]);
      assert ps == [ps[0]] + ps[1..];
    } else if IsWs(ps[0]) && Glued(ps, c) {
      TrimAroundSlots(DropWhile(ps, IsWs), c);
      SlotsOfDrop(ps, IsWs);
    } else {
      TrimAroundSlots(ps[1..], c);
      SlotsOfCons(ps[0], TrimAround(ps[1..], c));
      SlotsOfCons(ps[0], ps[1..]);
      assert ps == [ps[0]] + ps[1..];
    }
  }

  lemma {:induction false} SubRunsSlots(ps: seq<Piece>)
    ensures SlotsOf(CollapseBlanks(ps)) == SlotsOf(ps)
    decreases |ps|
  {
    if ps != [] {
      if IsH(ps[0]) {
        var t := DropWhile(ps, IsH);
        SubRunsSlots(t);
        SlotsOfDrop(ps, IsH);
        SlotsOfCons(Ch(' '), CollapseBlanks(t));
      } else {
        SubRunsSlots(ps[1..]);
        SlotsOfCons(ps[0], CollapseBlanks(ps[1..]));
        SlotsOfCons(ps[0], ps[1..]);
        assert ps == [ps[0]] + ps[1..];
      }
    }
  }

  /** Tidying never touches a slot: every placeholder survives, once and in order. */
  lemma TidyKeepsSlots(ps: seq<Piece>, unescape: string -> string)
    ensures SlotsOf(TidyShell(ps, unescape)) == SlotsOf(ps)
  {
    var u := UnescapeRuns(ps, unescape);
    SubRunsSlots(u);
    var v := CollapseBlanks(u);
    TrimAroundSlots(v, ';');
    TrimAroundSlots(TrimAround(v, ';'), ':');
    TrimAroundSlots(TrimAround(TrimAround(v, ';'), ':'), '{');
    TrimAroundSlots(TrimAround(TrimAround(TrimAround(v, ';'), ':'), '{'), '}');
  }

  /** Gluing one separator keeps another one glued. */
  lemma {:induction false} TrimAroundKeeps(ps: seq<Piece>, c: char, d: char)
    requires !IsSpace(c) && !IsSpace(d) && c != d
    requires NoWsAround(ps, d)
    ensures NoWsAround(TrimAround(ps, c), d)
    decreases |ps|, 1
  {
    if ps == [] {
    } else if ps[0] == Ch(c) {
      KeepsAtSeparator(ps, c, d);
    } else if IsWs(ps[0]) && Glued(ps, c) {
      KeepsAtGluedRun(ps, c, d);
    } else {
      KeepsAtOther(ps, c, d);
    }
  }

  lemma {:induction false} KeepsAtSeparator(ps: seq<Piece>, c: char, d: char)
    requires !IsSpace(c) && !IsSpace(d) && c != d
    requires NoWsAround(ps, d)
    requires ps != [] && ps[0] == Ch(c)
    ensures NoWsAround(TrimAround(ps, c), d)
    decreases |ps|, 0
  {
    var y := DropWhile(ps[1..], IsWs);
    DropWhileSuffix(ps[1..], IsWs);
    TrimAroundKeeps(y, c, d);
    NoWsAroundCons(Ch(c), TrimAround(y, c), d);
  }

  lemma {:induction false} KeepsAtGluedRun(ps: seq<Piece>, c: char, d: char)
    requires !IsSpace(c) && !IsSpace(d) && c != d
    requires NoWsAround(ps, d)
    requires ps != [] && ps[0] != Ch(c) && IsWs(ps[0]) && Glued(ps, c)
    ensures NoWsAround(TrimAround(ps, c), d)
    decreases |ps|, 0
  {
    DropWhileSuffix(ps, IsWs);
    TrimAroundKeeps(DropWhile(ps, IsWs), c, d);
  }

  lemma {:induction false} KeepsAtOther(ps: seq<Piece>, c: char, d: char)
    requires !IsSpace(c) && !IsSpace(d) && c != d
    requires NoWsAround(ps, d)
    requires ps != [] && ps[0] != Ch(c) && !(IsWs(ps[0]) && Glued(ps, c))
    ensures NoWsAround(TrimAround(ps, c), d)
    decreases |ps|, 0
  {
    TrimAroundKeeps(ps[1..], c, d);
    var t := TrimAround(ps[1..], c);
    if |ps| > 1 {
      assert !WsBeside(d, ps[0], ps[1]);
      assert IsWs(ps[0]) ==> DropWhile(ps[1..], IsWs) == DropWhile(ps, IsWs);
    }
    NoWsAroundCons(ps[0], t, d);
  }

  /** Gluing a separator keeps blanks apart. */
  lemma {:induction false} TrimAroundKeepsBlanks(ps: seq<Piece>, c: char)
    requires !IsSpace(c)
    requires NoDoubleBlank(ps)
    ensures NoDoubleBlank(TrimAround(ps, c))
    decreases |ps|, 1
  {
    if ps == [] {
    } else if ps[0] == Ch(c) {
      BlanksAtSeparator(ps, c);
    } else if IsWs(ps[0]) && Glued(ps, c) {
      BlanksAtGluedRun(ps, c);
    } else {
      BlanksAtOther(ps, c);
    }
  }

  lemma {:induction false} BlanksAtSeparator(ps: seq<Piece>, c: char)
    requires !IsSpace(c)
    requires NoDoubleBlank(ps)
    requires ps != [] && ps[0] == Ch(c)
    ensures NoDoubleBlank(TrimAround(ps, c))
    decreases |ps|, 0
  {
    var y := DropWhile(ps[1..], IsWs);
    DropWhileSuffix(ps[1..], IsWs);
    TrimAroundKeepsBlanks(y, c);
    NoDoubleBlankCons(Ch(c), TrimAround(y, c));
  }

  lemma {:induction false} BlanksAtGluedRun(ps: seq<Piece>, c: char)
    requires !IsSpace(c)
    requires NoDoubleBlank(ps)
    requires ps != [] && ps[0] != Ch(c) && IsWs(ps[0]) && Glued(ps, c)
    ensures NoDoubleBlank(TrimAround(ps, c))
    decreases |ps|, 0
  {
    DropWhileSuffix(ps, IsWs);
    TrimAroundKeepsBlanks(DropWhile(ps, IsWs), c);
  }

  lemma {:induction false} BlanksAtOther(ps: seq<Piece>, c: char)
    requires !IsSpace(c)
    requires NoDoubleBlank(ps)
    requires ps != [] && ps[0] != Ch(c) && !(IsWs(ps[0]) && Glued(ps, c))
    ensures NoDoubleBlank(TrimAround(ps, c))
    decreases |ps|, 0
  {
    TrimAroundKeepsBlanks(ps[1..], c);
    var t := TrimAround(ps[1..], c);
    if |ps| > 1 {
      assert !(IsH(ps[0]) && IsH(ps[1]));
      assert IsWs(ps[0]) ==> DropWhile(ps[1..], IsWs) == DropWhile(ps, IsWs);
    }
    NoDoubleBlankCons(ps[0], t);
  }

  /** After tidying, no two blanks are neighbours and no white space touches a
      separator. */
  lemma TidyShellIsTidy(ps: seq<Piece>, unescape: string -> string)
    ensures var r := TidyShell(ps, unescape);
      NoDoubleBlank(r) && forall c | c in SEPARATORS :: NoWsAround(r, c)
  {
    var v := CollapseBlanks(UnescapeRuns(ps, unescape));
    SubRunsSeparated(UnescapeRuns(ps, unescape), IsH, Ch(' '));
    TrimSeparatorsKeepsBlanks(v);
    TrimSeparatorsGlues(v);
  }

  lemma TrimSeparatorsKeepsBlanks(v: seq<Piece>)
    requires NoDoubleBlank(v)
    ensures NoDoubleBlank(TrimSeparators(v))
  {
    var a := TrimAround(v, ';');
    var b := TrimAround(a, ':');
    var c := TrimAround(b, '{');
    TrimAroundKeepsBlanks(v, ';');
    TrimAroundKeepsBlanks(a, ':');
    TrimAroundKeepsBlanks(b, '{');
    TrimAroundKeepsBlanks(c, '}');
  }

  lemma TrimSeparatorsGlues(v: seq<Piece>)
    ensures forall c | c in SEPARATORS :: NoWsAround(TrimSeparators(v), c)
  {
    var a := TrimAround(v, ';');
    var b := TrimAround(a, ':');
    var c := TrimAround(b, '{');
    var d := TrimAround(c, '}');
    TrimAroundKeeps(a, ':', ';');
    TrimAroundKeeps(b, '{', ';');
    TrimAroundKeeps(c, '}', ';');
    TrimAroundKeeps(b, '{', ':');
    TrimAroundKeeps(c, '}', ':');
    TrimAroundKeeps(c, '}', '{');
    assert NoWsAround(d, ';') && NoWsAround(d, ':') && NoWsAround(d, '{') && NoWsAround(d, '}');
  }

  // ---------------------------------------------------------------------------------
  // The whole clean-up
  // ---------------------------------------------------------------------------------

  lemma {:induction false} SlotsBelowOf(ps: seq<Piece>, n: nat)
    requires forall x | x in SlotsOf(ps) :: x < n
    ensures SlotsBelow(ps, n)
  {
    if ps != [] {
      SlotsOfCons(ps[0], ps[1..]);
      assert ps == [ps[0]] + ps[1..];
      var a, b := SlotsOf(ps), SlotsOf(ps[1..]);
      assert a == (if ps[0].Slot? then [ps[0].k] else []) + b;
      forall x | x in b ensures x < n { assert x in a; }
      assert ps[0].Slot? ==> ps[0].k in a;
      SlotsBelowOf(ps[1..], n);
      forall i | 1 <= i < |ps| ensures ps[i] == ps[1..][i - 1] { }
    }
  }

  /** The tidied shell of `s` (slots still in place). */
  function TidiedShell(s: string, unescape: string -> string): (t: seq<Piece>)
    ensures SlotsOf(t) == Range(0, |StashFrom(s, 0, 0).1|)
    ensures SlotsBelow(t, |StashFrom(s, 0, 0).1|)
  {
    var st := StashFrom(s, 0, 0);
    StashSlots(s, 0, 0);
    TidyKeepsRange(st.0, |st.1|, unescape);
    TidyShell(st.0, unescape)
  }

  lemma TidyKeepsRange(ps: seq<Piece>, n: nat, unescape: string -> string)
    requires SlotsOf(ps) == Range(0, n)
    ensures SlotsOf(TidyShell(ps, unescape)) == Range(0, n)
    ensures SlotsBelow(TidyShell(ps, unescape), n)
  {
    var t := TidyShell(ps, unescape);
    TidyKeepsSlots(ps, unescape);
    forall x | x in SlotsOf(t) ensures x < n {
      var i :| 0 <= i < |SlotsOf(t)| && SlotsOf(t)[i] == x;
    }
    SlotsBelowOf(t, n);
  }

  /** The clean-up as intended: every token goes back, once, where its placeholder
      stands, and text put back is never searched again. */
  function CleanShell(s: string, unescape: string -> string): (r: string)
  {
    Restore(TidiedShell(s, unescape), StashFrom(s, 0, 0).1)
  }

  /** What the clean-up produces: the saved tokens, each once and in their order, set
      into a shell in which no two blanks are neighbours and no white space touches a
      separator. */
  lemma CleanShellShape(s: string, unescape: string -> string)
    ensures var t := TidiedShell(s, unescape);
      && SlotsOf(t) == Range(0, |StashFrom(s, 0, 0).1|)
      && NoDoubleBlank(t)
      && (forall c | c in SEPARATORS :: NoWsAround(t, c))
      && CleanShell(s, unescape) == Restore(t, StashFrom(s, 0, 0).1)
  {
    TidyShellIsTidy(StashFrom(s, 0, 0).0, unescape);
  }

  /** When there is nothing to tidy, the clean-up gives its input back: every token is
      restored in place. */
  lemma CleanShellRestoresInPlace(s: string, unescape: string -> string)
    requires TidyShell(StashFrom(s, 0, 0).0, unescape) == StashFrom(s, 0, 0).0
    ensures CleanShell(s, unescape) == s
  {
    StashRestore(s, 0, []);
    assert [] + StashFrom(s, 0, 0).1 == StashFrom(s, 0, 0).1;
  }

  // ---------------------------------------------------------------------------------
  // The restoring loop as written
  // ---------------------------------------------------------------------------------

  /** `f'@@S{k}@@'` */
  function Placeholder(k: nat): (r: string)
    ensures |r| >= 5 && r[..3] == "@@S"
  {
    "@@S" + Decimal(k) + "@@"
  }

  /** The stashed text with each slot written as its placeholder. */
  function Render(ps: seq<Piece>): string
  {
    if ps == [] then []
    else (if ps[0].Slot? then Placeholder(ps[0].k) else [ps[0].c]) + Render(ps[1..])
  }

  /** The text after the first `n` rounds of
      `for idx, tok in enumerate(saved): shell = shell.replace(f'@@S{idx}@@', tok)`;
      each round replaces its placeholder everywhere, inside tokens put back by earlier
      rounds too. */
  function ReplaceRounds(shell: string, saved: seq<string>, n: nat): string
    requires n <= |saved|
  {
    if n == 0 then shell
    else ReplaceAll(ReplaceRounds(shell, saved, n - 1), Placeholder(n - 1), saved[n - 1])
  }

  /** `safe_cleanup_shell_only` as written. */
  method SafeCleanupShellOnly(s: string, unescape: string -> string) returns (r: string)
    ensures var st := StashFrom(s, 0, 0);
      r == ReplaceRounds(Render(TidyShell(st.0, unescape)), st.1, |st.1|)
  {
    var pieces, saved := Stash(s);
    var shell := Render(TidyShell(pieces, unescape));
    ghost var rendered := shell;
    for idx := 0 to |saved|
      invariant shell == ReplaceRounds(rendered, saved, idx)
    {
      shell := ReplaceAll(shell, Placeholder(idx), saved[idx]);
    }
    r := shell;
  }

  // ---------------------------------------------------------------------------------
  // When the loop as written restores in place
  // ---------------------------------------------------------------------------------

  /** The text after the rounds for the slots below `j`: those slots hold their tokens,
      the others still their placeholders. */
  function Partly(ps: seq<Piece>, saved: seq<string>, j: nat): string
    requires SlotsBelow(ps, |saved|)
  {
    if ps == [] then []
    else
      assert SlotsBelow(ps[1..], |saved|) by {
        forall i | 0 <= i < |ps| - 1 ensures ps[1..][i] == ps[i + 1] { }
      }
      (if ps[0].Ch? then [ps[0].c] else if ps[0].k < j then saved[ps[0].k] else Placeholder(ps[0].k))
        + Partly(ps[1..], saved, j)
  }

  /** No placeholder can be found away from its own slot: neither the text nor a token
      holds `@`, every token is non-empty and does not start with `S`, and no `S` follows
      a slot. */
  predicate NoStrayPlaceholder(ps: seq<Piece>, saved: seq<string>)
  {
    && (forall i | 0 <= i < |ps| :: ps[i] != Ch('@'))
    && (forall i | 1 <= i < |ps| :: ps[i - 1].Slot? ==> ps[i] != Ch('S'))
    && (forall m | 0 <= m < |saved| :: saved[m] != [] && saved[m][0] != 'S' && '@' !in saved[m])
  }

  /** `t` cannot complete a placeholder begun before it: it starts neither with `S` nor
      with `@S`. */
  predicate NoPlaceholderTail(t: string)
  {
    (|t| >= 1 ==> t[0] != 'S') && (|t| >= 2 ==> !(t[0] == '@' && t[1] == 'S'))
  }

  /** Before any round, every slot shows its placeholder. */
  lemma {:induction false} PartlyNone(ps: seq<Piece>, saved: seq<string>)
    requires SlotsBelow(ps, |saved|)
    ensures Partly(ps, saved, 0) == Render(ps)
  {
    if ps != [] {
      SlotsBelowTail(ps, |saved|);
      PartlyNone(ps[1..], saved);
    }
  }

  /** After all the rounds, every slot holds its token. */
  lemma {:induction false} PartlyAll(ps: seq<Piece>, saved: seq<string>)
    requires SlotsBelow(ps, |saved|)
    ensures Partly(ps, saved, |saved|) == Restore(ps, saved)
  {
    if ps != [] {
      SlotsBelowTail(ps, |saved|);
      PartlyAll(ps[1..], saved);
    }
  }

  lemma SlotsBelowTail(ps: seq<Piece>, n: nat)
    requires ps != [] && SlotsBelow(ps, n)
    ensures SlotsBelow(ps[1..], n) && (ps[0].Slot? ==> ps[0].k < n)
  {
    forall i | 0 <= i < |ps| - 1 ensures ps[1..][i] == ps[i + 1] { }
  }

  /** No placeholder but the `k`-th starts inside `Placeholder(k)` when the text after it
      does not start with `S` or `@S`. */
  lemma PlaceholderSkip(k: nat, j: nat, rest: string)
    requires k != j && NoPlaceholderTail(rest)
    ensures forall i | 0 <= i < |Placeholder(k)| :: !OccursAt(Placeholder(j), Placeholder(k) + rest, i)
  {
    var p, q, d, e := Placeholder(k), Placeholder(j), Decimal(k), Decimal(j);
    var s := p + rest;
    assert p == "@@S" + d + "@@" && q == "@@S" + e + "@@";
    assert |p| == |d| + 5 && |q| == |e| + 5;
    forall i | 0 <= i < |p| ensures !OccursAt(q, s, i) {
      if i == 0 {
        if |e| == |d| {
          if d == e {
            DecimalInjective(k, j);
            assert false;
          }
          var y :| 0 <= y < |d| && d[y] != e[y];
          assert s[3 + y] == d[y] && q[3 + y] == e[y];
          MismatchAt(q, s, 0, 3 + y);
        } else if |e| < |d| {
          assert s[3 + |e|] == d[|e|] && d[|e|] in d;
          assert q[3 + |e|] == '@';
          MismatchAt(q, s, 0, 3 + |e|);
        } else {
          assert s[3 + |d|] == '@';
          assert q[3 + |d|] == e[|d|] && e[|d|] in e;
          MismatchAt(q, s, 0, 3 + |d|);
        }
      } else if i <= 2 {
        assert s[2] == 'S' && q[2 - i] == '@';
        MismatchAt(q, s, i, 2 - i);
      } else if i < 3 + |d| {
        assert s[i] == d[i - 3] && d[i - 3] in d;
        MismatchAt(q, s, i, 0);
      } else if i == 3 + |d| {
        assert q[2] == 'S';
        assert i + 2 < |s| ==> s[i + 2] == rest[0];
        MismatchAt(q, s, i, 2);
      } else {
        assert q[1] == '@' && q[2] == 'S';
        assert i + 2 < |s| ==> s[i + 1] == rest[0] && s[i + 2] == rest[1];
        if i + |q| <= |s| && s[i + 1] == '@' {
          MismatchAt(q, s, i, 2);
        } else {
          MismatchAt(q, s, i, 1);
        }
      }
    }
  }

  /** What follows a slot, part-way through the rounds, cannot complete a placeholder. */
  lemma PartlyTail(t: seq<Piece>, saved: seq<string>, j: nat)
    requires SlotsBelow(t, |saved|)
    requires forall m | 0 <= m < |saved| :: saved[m] != [] && saved[m][0] != 'S' && '@' !in saved[m]
    requires t != [] ==> t[0] != Ch('S') && t[0] != Ch('@')
    ensures NoPlaceholderTail(Partly(t, saved, j))
  {
    if t != [] {
      SlotsBelowTail(t, |saved|);
      var r := Partly(t[1..], saved, j);
      if t[0].Slot? && t[0].k < j {
        var tok := saved[t[0].k];
        assert tok[0] in tok;
        assert (tok + r)[0] == tok[0];
      } else if t[0].Slot? {
        var p := Placeholder(t[0].k);
        assert p[..3] == "@@S";
        assert (p + r)[1] == p[1];
      }
    }
  }

  /** Round `j` of the loop puts the `j`-th token into its own slot and changes nothing
      else. */
  lemma {:induction false} RoundRestoresSlot(ps: seq<Piece>, saved: seq<string>, j: nat)
    requires SlotsBelow(ps, |saved|) && j < |saved| && NoStrayPlaceholder(ps, saved)
    ensures ReplaceAll(Partly(ps, saved, j), Placeholder(j), saved[j]) == Partly(ps, saved, j + 1)
  {
    var pat := Placeholder(j);
    assert pat[..3] == "@@S";
    if ps != [] {
      SlotsBelowTail(ps, |saved|);
      var t := ps[1..];
      assert NoStrayPlaceholder(t, saved) by {
        forall i | 0 <= i < |t| ensures t[i] == ps[i + 1] { }
      }
      RoundRestoresSlot(t, saved, j);
      var rest := Partly(t, saved, j);
      var x := ps[0];
      if x.Ch? {
        assert x.c != '@';
        ReplaceAllSkip([x.c], rest, pat, saved[j]);
      } else if x.k < j {
        ReplaceAllSkip(saved[x.k], rest, pat, saved[j]);
      } else if x.k == j {
        ReplaceAllAtMatch(pat, rest, saved[j]);
      } else {
        assert t != [] ==> t[0] == ps[1] && ps[0].Slot?;
        PartlyTail(t, saved, j);
        PlaceholderSkip(x.k, j, rest);
        ReplaceAllNoMatch(Placeholder(x.k), rest, pat, saved[j]);
      }
    }
  }

  /** The first `n` rounds of the loop as written restore exactly the slots below `n`. */
  lemma {:induction false} RoundsRestoreSlots(ps: seq<Piece>, saved: seq<string>, n: nat)
    requires SlotsBelow(ps, |saved|) && n <= |saved| && NoStrayPlaceholder(ps, saved)
    ensures ReplaceRounds(Render(ps), saved, n) == Partly(ps, saved, n)
  {
    if n == 0 {
      PartlyNone(ps, saved);
    } else {
      RoundsRestoreSlots(ps, saved, n - 1);
      RoundRestoresSlot(ps, saved, n - 1);
    }
  }

  /** When neither a token nor the tidied shell holds `@` and no `S` follows a slot,
      `safe_cleanup_shell_only` as written gives the in-place clean-up's result. */
  lemma SafeCleanupAgrees(s: string, unescape: string -> string)
    requires forall i | 0 <= i < |TidiedShell(s, unescape)| :: TidiedShell(s, unescape)[i] != Ch('@')
    requires forall i | 1 <= i < |TidiedShell(s, unescape)| ::
      TidiedShell(s, unescape)[i - 1].Slot? ==> TidiedShell(s, unescape)[i] != Ch('S')
    requires forall m | 0 <= m < |StashFrom(s, 0, 0).1| :: '@' !in StashFrom(s, 0, 0).1[m]
    ensures var st := StashFrom(s, 0, 0);
      ReplaceRounds(Render(TidyShell(st.0, unescape)), st.1, |st.1|) == CleanShell(s, unescape)
  {
    var st := StashFrom(s, 0, 0);
    var t := TidiedShell(s, unescape);
    forall m | 0 <= m < |st.1| ensures st.1[m] != [] && st.1[m][0] == 's' {
      StashedAreTokens(s, 0, 0, m);
    }
    RoundsRestoreSlots(t, st.1, |st.1|);
    PartlyAll(t, st.1);
  }

  // ---------------------------------------------------------------------------------
  // A token whose text looks like a placeholder
  // ---------------------------------------------------------------------------------

  /** Two string tokens, the first of which holds the text of the second's placeholder:
      `s:6:"@@S1@@";s:1:"x";`. */
  const SAMPLE_HEAD: string := "s:6:\""
  const SAMPLE_TAIL: string := "\";"
  const SAMPLE_FIRST: string := SAMPLE_HEAD + "@@S1@@" + SAMPLE_TAIL
  const SAMPLE_SECOND: string := "s:1:\"x\";"
  const PLACEHOLDER_SAMPLE: string := SAMPLE_FIRST + SAMPLE_SECOND

  lemma SampleFirstToken()
    ensures |SAMPLE_FIRST| == 13 && |PLACEHOLDER_SAMPLE| == 21
    ensures TokenAt(PLACEHOLDER_SAMPLE, 0) == Some(13)
  {
    var s := PLACEHOLDER_SAMPLE;
    assert s == "s:6:\"@@S1@@\";s:1:\"x\";";
    assert DigitsEnd(s, 3) == 3;
    assert DigitsEnd(s, 2) == 3;
    assert ContentEnd(s, 11) == 11;
    assert ContentEnd(s, 10) == 11;
    assert ContentEnd(s, 9) == 11;
    assert ContentEnd(s, 8) == 11;
    assert ContentEnd(s, 7) == 11;
    assert ContentEnd(s, 6) == 11;
    assert ContentEnd(s, 5) == 11;
  }

  lemma SampleSecondToken()
    ensures TokenAt(PLACEHOLDER_SAMPLE, 13) == Some(21)
  {
    var s := PLACEHOLDER_SAMPLE;
    assert s == "s:6:\"@@S1@@\";s:1:\"x\";";
    assert DigitsEnd(s, 16) == 16;
    assert DigitsEnd(s, 15) == 16;
    assert ContentEnd(s, 19) == 19;
    assert ContentEnd(s, 18) == 19;
  }

  lemma SampleStash()
    ensures StashFrom(PLACEHOLDER_SAMPLE, 0, 0) == ([Slot(0), Slot(1)], [SAMPLE_FIRST, SAMPLE_SECOND])
  {
    var s := PLACEHOLDER_SAMPLE;
    SampleFirstToken();
    SampleSecondToken();
    var t := StashFrom(s, 21, 2);
    assert t == ([], []);
    assert StashFrom(s, 13, 1) == ([Slot(1)] + t.0, [s[13..21]] + t.1);
    var u := StashFrom(s, 13, 1);
    assert t.0 == [] && t.1 == [];
    assert [Slot(1)] + t.0 == [Slot(1)] && [s[13..21]] + t.1 == [s[13..21]];
    assert u.0 == [Slot(1)] && u.1 == [s[13..21]];
    assert StashFrom(s, 0, 0) == ([Slot(0)] + u.0, [s[0..13]] + u.1);
    assert s[13..21] == SAMPLE_SECOND && s[0..13] == SAMPLE_FIRST;
    assert [Slot(0)] + u.0 == [Slot(0), Slot(1)];
    assert [s[0..13]] + u.1 == [SAMPLE_FIRST, SAMPLE_SECOND];
  }

  lemma SlotsOnlyStayPut(ps: seq<Piece>, unescape: string -> string)
    requires ps == [Slot(0), Slot(1)]
    ensures TidyShell(ps, unescape) == ps
  {
    SlotsUnescaped(ps, unescape);
    SlotsCollapsed(ps);
    SlotsTrimmed(ps, ';');
    SlotsTrimmed(ps, ':');
    SlotsTrimmed(ps, '{');
    SlotsTrimmed(ps, '}');
  }

  lemma SlotsUnescaped(ps: seq<Piece>, unescape: string -> string)
    requires ps == [Slot(0), Slot(1)]
    ensures UnescapeRuns(ps, unescape) == ps
  {
    assert UnescapeRuns(ps[1..], unescape) == ps[1..];
  }

  lemma SlotsCollapsed(ps: seq<Piece>)
    requires ps == [Slot(0), Slot(1)]
    ensures CollapseBlanks(ps) == ps
  {
    assert !IsH(ps[0]) && !IsH(ps[1]);
    assert SubRuns(ps[1..][1..], IsH, [Ch(' ')]) == [];
    assert SubRuns(ps[1..], IsH, [Ch(' ')]) == ps[1..];
  }

  lemma SlotsTrimmed(ps: seq<Piece>, c: char)
    requires ps == [Slot(0), Slot(1)] && !IsSpace(c)
    ensures TrimAround(ps, c) == ps
  {
    assert TrimAround(ps[1..], c) == ps[1..];
  }

  /** The first round of the loop as written on the shell `@@S0@@@@S1@@`. */
  lemma FirstRound(first: string)
    ensures ReplaceAll(Placeholder(0) + Placeholder(1), Placeholder(0), first) == first + Placeholder(1)
  {
    var p0, p1 := Placeholder(0), Placeholder(1);
    assert p0 == "@@S0@@" && p1 == "@@S1@@";
    assert ReplaceAll(p1, p0, first) == p1 by {
      assert p1[..|p0|][3] != p0[3];
      assert ReplaceAll(p1[1..], p0, first) == p1[1..];
    }
    ReplaceAllAtMatch(p0, p1, first);
  }

  /** The second round, when the first token reads `@@S1@@` between a head and a tail
      without `@`: the second token lands inside the first. */
  lemma SecondRound(head: string, tail: string, second: string)
    requires '@' !in head && '@' !in tail
    ensures ReplaceAll(head + Placeholder(1) + tail + Placeholder(1), Placeholder(1), second)
      == head + second + tail + second
  {
    var p1 := Placeholder(1);
    ReplaceAllAtMatch(p1, [], second);
    assert p1 + [] == p1;
    assert ReplaceAll([], p1, second) == [];
    ReplaceAllSkip(tail, p1, p1, second);
    ReplaceAllAtMatch(p1, tail + p1, second);
    ReplaceAllSkip(head, p1 + (tail + p1), p1, second);
    assert head + p1 + tail + p1 == head + (p1 + (tail + p1));
  }

  lemma SampleRounds(head: string, tail: string, second: string)
    requires '@' !in head && '@' !in tail
    ensures ReplaceRounds(Placeholder(0) + Placeholder(1), [head + Placeholder(1) + tail, second], 2)
      == head + second + tail + second
  {
    var first := head + Placeholder(1) + tail;
    FirstRound(first);
    assert ReplaceRounds(Placeholder(0) + Placeholder(1), [first, second], 1) == first + Placeholder(1);
    SecondRound(head, tail, second);
  }

  /** On the sample, the loop as written puts the second token inside the first one,
      where the first token's text reads `@@S1@@`. */
  lemma PlaceholderInsideToken(unescape: string -> string)
    ensures var st := StashFrom(PLACEHOLDER_SAMPLE, 0, 0);
      ReplaceRounds(Render(TidyShell(st.0, unescape)), st.1, |st.1|)
        == SAMPLE_HEAD + SAMPLE_SECOND + SAMPLE_TAIL + SAMPLE_SECOND
  {
    var ps := [Slot(0), Slot(1)];
    SampleStash();
    SlotsOnlyStayPut(ps, unescape);
    RenderSlots(ps);
    SampleFirstShape();
    SampleRounds(SAMPLE_HEAD, SAMPLE_TAIL, SAMPLE_SECOND);
  }

  lemma RenderSlots(ps: seq<Piece>)
    requires ps == [Slot(0), Slot(1)]
    ensures Render(ps) == Placeholder(0) + Placeholder(1)
  {
    assert ps[1..][1..] == [];
    assert Render(ps[1..]) == Placeholder(1) + [];
  }

  lemma SampleFirstShape()
    ensures SAMPLE_FIRST == SAMPLE_HEAD + Placeholder(1) + SAMPLE_TAIL
    ensures '@' !in SAMPLE_HEAD && '@' !in SAMPLE_TAIL
  {
    assert Placeholder(1) == "@@S1@@";
    assert SAMPLE_HEAD == "s:6:\"" && SAMPLE_TAIL == "\";";
  }

  /** The intended clean-up gives the same sample back unchanged. */
  lemma SampleRestoredInPlace(unescape: string -> string)
    ensures CleanShell(PLACEHOLDER_SAMPLE, unescape) == PLACEHOLDER_SAMPLE
  {
    SampleStash();
    SlotsOnlyStayPut([Slot(0), Slot(1)], unescape);
    CleanShellRestoresInPlace(PLACEHOLDER_SAMPLE, unescape);
  }
}
