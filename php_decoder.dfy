/** The decoder as the source runs it: `_lenient_scan_close` and the whitespace loop of
    `_parse_string` as loops, `_parse_value` as a recursive procedure whose array branch
    loops over the declared count and fills a dict, and `php_unserialize` on a text.
    Each procedure is proved to compute its PhpGrammar production. */
module PhpDecoder {
  import opened PySeq
  import opened PyBytes
  import opened PhpGrammar

  /** `_lenient_scan_close`: the payload up to the first quote in the look-ahead window
      that is followed by optional whitespace and a `;`, and the offset past that `;`. */
  method LenientScanClose(b: Bytes, start: nat) returns (r: Option<(Bytes, nat)>)
    requires start <= |b|
    ensures r == match ScanClose(b, start, start)
                 case None => None
                 case Some(q) => Some((b[start..q], Resume(b, q)))
  {
    var endLimit := ScanLimit(b, start);
    var k := start;
    while true
      invariant start <= k
      invariant forall q | start <= q < k && q < endLimit :: !ClosesAt(b, q)
      decreases endLimit - k
    {
      var found := Find(b, QUOTE, k, endLimit);
      if found.None? {
        ScanCloseIsFirst(b, start, start);
        assert forall q | start <= q < endLimit :: !ClosesAt(b, q);
        return None;
      }
      k := found.value;
      var j := k + 1;
      while j < |b| && IsTerminatorSpace(b[j])
        invariant k + 1 <= j <= |b|
        invariant SkipSpace(b, j) == SkipSpace(b, k + 1)
        decreases |b| - j
      {
        j := j + 1;
      }
      if j < |b| && b[j] == SEMICOLON {
        assert ClosesAt(b, k);
        ScanCloseFinds(b, start, start, k);
        return Some((b[start..k], j + 1));
      }
      assert !ClosesAt(b, k);
      k := k + 1;
    }
  }

  /** `_parse_string` from the offset just after `s:`, returning the raw payload. */
  method ParseStringM(b: Bytes, i: nat, lenient: bool) returns (r: Result<Bytes>)
    requires i <= |b|
    ensures r == ParseString(b, i, lenient)
  {
    var header := StringLength(b, i);
    if header.Err? {
      return Err(header.error);
    }
    r := AfterLengthM(b, header.parsed, lenient);
  }

  /** `_parse_string` once `s:<len>:` is read: the sign and opening-quote checks, the body. */
  method AfterLengthM(b: Bytes, h: Parsed<int>, lenient: bool) returns (r: Result<Bytes>)
    requires h.next <= |b|
    ensures r == StringAfterLength(b, h, lenient)
  {
    if h.value < 0 {
      return Err(ParseError(InvalidStringLength, h.next));
    }
    if !(h.next < |b| && b[h.next] == QUOTE) {
      return Err(ParseError(ExpectedOpeningQuote, h.next));
    }
    r := StringBodyM(b, h.next + 1, h.value, lenient);
  }

  /** The part of `_parse_string` after the opening quote. */
  method StringBodyM(b: Bytes, start: nat, declared: nat, lenient: bool) returns (r: Result<Bytes>)
    requires start <= |b|
    ensures r == StringBody(b, start, declared, lenient)
  {
    if |b| - start < declared {
      if !lenient {
        return Err(ParseError(StringTooShort, start));
      }
      r := RepairM(b, start, declared, true, start);
      return;
    }
    r := DeclaredEndM(b, start, declared, lenient);
  }

  /** `_parse_string` when the text is long enough for the declared length: the closing
      `"`, whitespace and `;` are looked for right after it, with the repair scan as the
      lenient fallback. */
  method DeclaredEndM(b: Bytes, start: nat, declared: nat, lenient: bool) returns (r: Result<Bytes>)
    requires start + declared <= |b|
    ensures r == StringBody(b, start, declared, lenient)
  {
    var end := start + declared;
    var pos := end;
    if pos < |b| && b[pos] == QUOTE {
      pos := pos + 1;
      while pos < |b| && IsTerminatorSpace(b[pos])
        invariant end + 1 <= pos <= |b|
        invariant SkipSpace(b, pos) == SkipSpace(b, end + 1)
        decreases |b| - pos
      {
        pos := pos + 1;
      }
      if pos < |b| && b[pos] == SEMICOLON {
        assert ClosesAt(b, end) && pos + 1 == Resume(b, end);
        return Ok(Parsed(b[start..end], pos + 1, []));
      }
    }
    assert !ClosesAt(b, end);
    assert pos == if end < |b| && b[end] == QUOTE then SkipSpace(b, end + 1) else end;
    assert StringBody(b, start, declared, lenient)
      == if lenient then Repaired(b, start, declared, false, pos) else Err(ParseError(ExpectedClosing, pos));
    if lenient {
      r := RepairM(b, start, declared, false, pos);
      return;
    }
    return Err(ParseError(ExpectedClosing, pos));
  }

  /** The lenient repair: scan for the first closing quote, take the payload before it and
      note the length it was given; `short` tells the too-short case from the mismatch case. */
  method RepairM(b: Bytes, start: nat, declared: nat, short: bool, errPos: nat) returns (r: Result<Bytes>)
    requires start <= |b| && errPos <= |b|
    requires short ==> |b| - start < declared
    ensures r == Repaired(b, start, declared, short, errPos)
  {
    var scan := LenientScanClose(b, start);
    if scan.None? {
      return Err(ParseError(if short then NoViableClosing else ExpectedClosing, if short then start else errPos));
    }
    var (payload, next) := scan.value;
    var notes :=
      if short then [StringLengthRepairShort(start, declared, |payload|)]
      else if |payload| != declared then [StringLengthRepairMismatch(start, declared, |payload|)]
      else [];
    return Ok(Parsed(payload, next, notes));
  }

  /** `_parse_key` */
  method ParseKeyM(b: Bytes, i: nat, cfg: Config) returns (r: Result<Key>)
    requires i <= |b|
    ensures r == ParseKey(b, i, cfg)
  {
    var tag := TagAt(b, i);
    if tag == IntTag {
      var n := ParseInt(b, i + 2);
      r := match n case Err(e) => Err(e) case Ok(p) => Ok(Parsed(IntKey(p.value), p.next, p.notes));
    } else if tag == StrTag {
      var s := ParseStringM(b, i + 2, cfg.lenient);
      r := match s case Err(e) => Err(e) case Ok(p) => Ok(Parsed(StrKey(cfg.decode(p.value)), p.next, p.notes));
    } else {
      r := Err(ParseError(UnsupportedKeyType, i));
    }
  }

  /** `_parse_value` at offset `i`. */
  method ParseValueM(b: Bytes, i: nat, cfg: Config) returns (r: Result<Value>)
    requires i <= |b|
    ensures r == ParseValue(b, i, cfg)
    decreases |b| - i, 1
  {
    var tag := TagAt(b, i);
    if tag == ArrayTag {
      r := ParseArrayM(b, i + 2, cfg);
    } else if tag == StrTag {
      var s := ParseStringM(b, i + 2, cfg.lenient);
      r := match s case Err(e) => Err(e) case Ok(p) => Ok(Parsed(Str(cfg.decode(p.value)), p.next, p.notes));
    } else {
      r := ParseScalar(b, i, tag, cfg);
    }
  }

  /** The pairs read so far, put in front of the result of reading the rest. */
  function Prepend(items: seq<(Key, Value)>, notes: seq<Note>, rest: Result<seq<(Key, Value)>>)
    : Result<seq<(Key, Value)>>
  {
    match rest
    case Err(e) => Err(e)
    case Ok(p) => Ok(Parsed(items + p.value, p.next, notes + p.notes))
  }

  /** Reading one more pair moves it from the rest to the front. */
  lemma PrependStep(items: seq<(Key, Value)>, notes: seq<Note>, pair: (Key, Value), more: seq<Note>,
                    rest: Result<seq<(Key, Value)>>)
    ensures Prepend(items, notes, Prepend([pair], more, rest)) == Prepend(items + [pair], notes + more, rest)
  {
    if rest.Ok? {
      assert items + ([pair] + rest.parsed.value) == items + [pair] + rest.parsed.value;
      assert notes + (more + rest.parsed.notes) == notes + more + rest.parsed.notes;
    }
  }

  /** What reading `m` more pairs from `pos` gives. */
  ghost function PairsFrom(b: Bytes, pos: nat, m: int, cfg: Config): Result<seq<(Key, Value)>>
    requires pos <= |b|
  {
    ParsePairs(b, pos, m, cfg)
  }

  /** Reading one pair, then the rest, is reading the pairs. */
  lemma PairsUnfold(b: Bytes, pos: nat, m: int, cfg: Config, pp: Parsed<(Key, Value)>)
    requires pos <= |b| && m > 0 && ParsePair(b, pos, cfg) == Ok(pp)
    ensures pp.next <= |b|
    ensures PairsFrom(b, pos, m, cfg) == Prepend([pp.value], pp.notes, PairsFrom(b, pp.next, m - 1, cfg))
  {
  }

  /** A pair that fails to read fails the pairs, whatever was read before it. */
  lemma PairsFail(b: Bytes, pos: nat, m: int, cfg: Config, items: seq<(Key, Value)>, notes: seq<Note>, e: ParseError)
    requires pos <= |b| && m > 0 && ParsePair(b, pos, cfg) == Err(e)
    ensures Prepend(items, notes, PairsFrom(b, pos, m, cfg)) == Err(e)
  {
  }

  /** The array branch from the offset just after `a:`: the head, the pairs, the `}`, and
      the list-or-dict decision. */
  method ParseArrayM(b: Bytes, i: nat, cfg: Config) returns (r: Result<Value>)
    requires i <= |b|
    ensures r == ParseArray(b, i, cfg)
    decreases |b| - i, 0
  {
    var head := ArrayHead(b, i);
    if head.Err? {
      return Err(head.error);
    }
    var pr := ParsePairsM(b, head.parsed.next, head.parsed.value, cfg);
    if pr.Err? {
      return Err(pr.error);
    }
    var pos, items, notes := pr.parsed.next, pr.parsed.value, pr.parsed.notes;
    if !(pos < |b| && b[pos] == RBRACE) {
      return Err(ParseError(ExpectedCloseBrace, pos));
    }
    if IsIndexSequence(items) {
      r := Ok(Parsed(List(Values(items)), pos + 1, notes));
    } else {
      var d := BuildDictM(items);
      r := Ok(Parsed(Dict(d), pos + 1, notes));
    }
  }

  /** One round of `for _ in range(count)`: `_parse_key`, then `_parse_value`. */
  method ParsePairM(b: Bytes, pos: nat, cfg: Config) returns (r: Result<(Key, Value)>)
    requires pos <= |b|
    ensures r == ParsePair(b, pos, cfg)
    decreases |b| - pos, 1
  {
    var kr := ParseKeyM(b, pos, cfg);
    if kr.Err? {
      return Err(kr.error);
    }
    var vr := ParseValueM(b, kr.parsed.next, cfg);
    if vr.Err? {
      return Err(vr.error);
    }
    var kp, vp := kr.parsed, vr.parsed;
    r := Ok(Parsed((kp.value, vp.value), vp.next, kp.notes + vp.notes));
  }

  /** One round of the loop keeps the pairs read, followed by the pairs still to read,
      equal to the whole result. */
  lemma PairsAdvance(b: Bytes, cfg: Config, whole: Result<seq<(Key, Value)>>, pp: Parsed<(Key, Value)>,
                     pos0: nat, left0: int, items0: seq<(Key, Value)>, notes0: seq<Note>,
                     pos: nat, left: int, items: seq<(Key, Value)>, notes: seq<Note>)
    requires pos0 <= |b| && pp.next <= |b|
    requires PairsFrom(b, pos0, left0, cfg) == Prepend([pp.value], pp.notes, PairsFrom(b, pp.next, left0 - 1, cfg))
    requires whole == Prepend(items0, notes0, PairsFrom(b, pos0, left0, cfg))
    requires pos == pp.next && left == left0 - 1 && items == items0 + [pp.value] && notes == notes0 + pp.notes
    ensures whole == Prepend(items, notes, PairsFrom(b, pos, left, cfg))
  {
    PrependStep(items0, notes0, pp.value, pp.notes, PairsFrom(b, pos, left, cfg));
  }

  /** Nothing read yet: the result is the rest. */
  lemma PrependNothing(rest: Result<seq<(Key, Value)>>)
    ensures Prepend([], [], rest) == rest
  {
    if rest.Ok? {
      assert [] + rest.parsed.value == rest.parsed.value && [] + rest.parsed.notes == rest.parsed.notes;
    }
  }

  /** No round left: the pairs read are the result. */
  lemma PrependDone(b: Bytes, pos: nat, left: int, cfg: Config, items: seq<(Key, Value)>, notes: seq<Note>)
    requires pos <= |b| && left <= 0
    ensures Prepend(items, notes, PairsFrom(b, pos, left, cfg)) == Ok(Parsed(items, pos, notes))
  {
    assert items + [] == items && notes + [] == notes;
  }

  /** `for _ in range(count)`: read a key and a value, append the pair; `left` counts
      the rounds still to run. */
  method ParsePairsM(b: Bytes, first: nat, count: int, cfg: Config) returns (r: Result<seq<(Key, Value)>>)
    requires first <= |b|
    ensures r == ParsePairs(b, first, count, cfg)
    decreases |b| - first, 2
  {
    var items: seq<(Key, Value)> := [];
    var notes: seq<Note> := [];
    var pos := first;
    var left := count;
    ghost var whole := PairsFrom(b, first, count, cfg);
    PrependNothing(whole);
    while left > 0
      invariant first <= pos <= |b|
      invariant whole == Prepend(items, notes, PairsFrom(b, pos, left, cfg))
      decreases left
    {
      var pr := ParsePairM(b, pos, cfg);
      if pr.Err? {
        PairsFail(b, pos, left, cfg, items, notes, pr.error);
        return Err(pr.error);
      }
      PairsUnfold(b, pos, left, cfg, pr.parsed);
      ghost var pos0, left0, items0, notes0 := pos, left, items, notes;
      items := items + [pr.parsed.value];
      notes := notes + pr.parsed.notes;
      pos := pr.parsed.next;
      left := left - 1;
      PairsAdvance(b, cfg, whole, pr.parsed, pos0, left0, items0, notes0, pos, left, items, notes);
    }
    PrependDone(b, pos, left, cfg, items, notes);
    return Ok(Parsed(items, pos, notes));
  }

  /** `d = {}; for k, v in items: d[k] = v` */
  method BuildDictM(items: seq<(Key, Value)>) returns (d: seq<(Key, Value)>)
    ensures d == BuildDict(items)
  {
    d := [];
    var t := 0;
    while t < |items|
      invariant 0 <= t <= |items| && d == BuildDict(items[..t])
    {
      assert items[..t + 1][..t] == items[..t];
      d := Insert(d, items[t].0, items[t].1);
      t := t + 1;
    }
    assert items[..t] == items;
  }

  /** `php_unserialize`: the text is encoded as UTF-8 and decoded from offset 0; bytes
      other than whitespace after the value are noted. */
  method PhpUnserialize(serialized: string, cfg: Config) returns (r: Result<Value>)
    ensures r == Unserialize(Utf8(serialized), cfg)
  {
    var b := Utf8(serialized);
    var root := ParseValueM(b, 0, cfg);
    if root.Err? {
      return Err(root.error);
    }
    var p := root.parsed;
    var notes := p.notes;
    if Strip(b[p.next..]) != [] {
      notes := notes + [TrailingData(p.next, |b| - p.next)];
    }
    assert Parsed(p.value, p.next, notes) == WithTrailing(b, p);
    return Ok(Parsed(p.value, p.next, notes));
  }
}
