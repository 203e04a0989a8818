/** What the decoder promises, stated over the grammar functions: leniency only ever
    repairs, scalar tokens, the container decision, and Python's dict semantics for
    repeated keys. */
module PhpProperties {
  import opened PySeq
  import opened PyBytes
  import PyInt
  import opened PhpGrammar

  /** A string that parses in strict mode parses identically, and without notes, in
      lenient mode. */
  lemma StrictStringIsLenient(b: Bytes, i: nat)
    requires i <= |b|
    ensures ParseString(b, i, false).Ok? ==>
      ParseString(b, i, false).parsed.notes == [] && ParseString(b, i, true) == ParseString(b, i, false)
  {
    var h := StringLength(b, i);
    if h.Ok? && h.parsed.value >= 0 && h.parsed.next < |b| && b[h.parsed.next] == QUOTE {
      StrictBodyIsLenient(b, h.parsed.next + 1, h.parsed.value);
    }
  }

  lemma StrictBodyIsLenient(b: Bytes, start: nat, declared: nat)
    requires start <= |b|
    ensures StringBody(b, start, declared, false).Ok? ==>
      && StringBody(b, start, declared, false).parsed.notes == []
      && StringBody(b, start, declared, true) == StringBody(b, start, declared, false)
  {
    if StringBody(b, start, declared, false).Ok? {
      assert ClosesAt(b, start + declared);
    }
  }

  lemma StrictKeyIsLenient(b: Bytes, i: nat, f: Bytes -> bool, d: Bytes -> string)
    requires i <= |b|
    ensures ParseKey(b, i, Config(false, f, d)).Ok? ==>
      && ParseKey(b, i, Config(false, f, d)).parsed.notes == []
      && ParseKey(b, i, Config(true, f, d)) == ParseKey(b, i, Config(false, f, d))
  {
    if TagAt(b, i) == StrTag {
      StrictStringIsLenient(b, i + 2);
    }
  }

  /** Leniency only repairs: whatever decodes in strict mode decodes to the same value, at
      the same offset, with no notes, in lenient mode. */
  lemma {:induction false} StrictValueIsLenient(b: Bytes, i: nat, f: Bytes -> bool, d: Bytes -> string)
    requires i <= |b|
    ensures ParseValue(b, i, Config(false, f, d)).Ok? ==>
      && ParseValue(b, i, Config(false, f, d)).parsed.notes == []
      && ParseValue(b, i, Config(true, f, d)) == ParseValue(b, i, Config(false, f, d))
    decreases |b| - i, 1
  {
    match TagAt(b, i)
    case StrTag => StrictStringIsLenient(b, i + 2);
    case ArrayTag => StrictArrayIsLenient(b, i + 2, f, d);
    case _ =>
  }

  lemma {:induction false} StrictArrayIsLenient(b: Bytes, i: nat, f: Bytes -> bool, d: Bytes -> string)
    requires i <= |b|
    ensures ParseArray(b, i, Config(false, f, d)).Ok? ==>
      && ParseArray(b, i, Config(false, f, d)).parsed.notes == []
      && ParseArray(b, i, Config(true, f, d)) == ParseArray(b, i, Config(false, f, d))
    decreases |b| - i, 0
  {
    var head := ArrayHead(b, i);
    if head.Ok? {
      var pairs, pairsLenient := StrictPairsIsLenient(b, head.parsed.next, head.parsed.value, f, d);
    }
  }

  /** The pairs loop from `j` in both modes: when the strict run succeeds it has no notes,
      and the lenient run gives the same result. */
  lemma {:induction false} StrictPairsIsLenient(b: Bytes, j: nat, remaining: int, f: Bytes -> bool, d: Bytes -> string)
    returns (strict: Result<seq<(Key, Value)>>, lenient: Result<seq<(Key, Value)>>)
    requires j <= |b|
    ensures strict == ParsePairs(b, j, remaining, Config(false, f, d))
    ensures lenient == ParsePairs(b, j, remaining, Config(true, f, d))
    ensures strict.Ok? ==> strict.parsed.notes == [] && lenient == strict
    decreases |b| - j, 4
  {
    strict, lenient := ParsePairs(b, j, remaining, Config(false, f, d)), ParsePairs(b, j, remaining, Config(true, f, d));
    if remaining > 0 {
      var pr := ParsePair(b, j, Config(false, f, d));
      if pr.Ok? {
        var next, rm := pr.parsed.next, remaining - 1;
        var rest, restLenient := StrictPairsIsLenient(b, next, rm, f, d);
        PairsCount(b, next, rm, remaining, Config(false, f, d));
        PairsCount(b, next, rm, remaining, Config(true, f, d));
        StrictPairsStep(b, j, remaining, f, d, pr.parsed, rest, restLenient);
      }
    }
  }

  /** When the rounds after the first pair agree, so do all the rounds from `j` on. */
  lemma {:induction false} StrictPairsStep(b: Bytes, j: nat, remaining: int, f: Bytes -> bool, d: Bytes -> string,
                                           pp: Parsed<(Key, Value)>, rest: Result<seq<(Key, Value)>>,
                                           restLenient: Result<seq<(Key, Value)>>)
    requires j <= |b| && remaining > 0 && ParsePair(b, j, Config(false, f, d)) == Ok(pp)
    requires rest == ParsePairs(b, pp.next, remaining - 1, Config(false, f, d))
    requires restLenient == ParsePairs(b, pp.next, remaining - 1, Config(true, f, d))
    requires rest.Ok? ==> rest.parsed.notes == [] && restLenient == rest
    ensures ParsePairs(b, j, remaining, Config(false, f, d)).Ok? ==>
      && ParsePairs(b, j, remaining, Config(false, f, d)).parsed.notes == []
      && ParsePairs(b, j, remaining, Config(true, f, d)) == ParsePairs(b, j, remaining, Config(false, f, d))
    decreases |b| - j, 3
  {
    StrictPairIsLenient(b, j, f, d);
    PairsCons(b, j, remaining, Config(false, f, d), pp);
    PairsCons(b, j, remaining, Config(true, f, d), pp);
  }

  /** One round of the loop that reads in strict mode reads the same pair, without
      notes, in lenient mode. */
  lemma {:induction false} StrictPairIsLenient(b: Bytes, j: nat, f: Bytes -> bool, d: Bytes -> string)
    requires j <= |b|
    ensures ParsePair(b, j, Config(false, f, d)).Ok? ==>
      && ParsePair(b, j, Config(false, f, d)).parsed.notes == []
      && ParsePair(b, j, Config(true, f, d)) == ParsePair(b, j, Config(false, f, d))
    decreases |b| - j, 2
  {
    StrictKeyIsLenient(b, j, f, d);
    var kr := ParseKey(b, j, Config(false, f, d));
    if kr.Ok? {
      StrictValueIsLenient(b, kr.parsed.next, f, d);
    }
  }

  /** The pairs loop depends on the count only through its value. */
  lemma PairsCount(b: Bytes, j: nat, rm: int, remaining: int, cfg: Config)
    requires j <= |b| && rm == remaining - 1
    ensures ParsePairs(b, j, rm, cfg) == ParsePairs(b, j, remaining - 1, cfg)
  {
  }

  /** The pairs read after a first pair `pp`. */
  function ConsPair(pp: Parsed<(Key, Value)>, rest: Result<seq<(Key, Value)>>): Result<seq<(Key, Value)>>
  {
    match rest
    case Err(e) => Err(e)
    case Ok(rp) => Ok(Parsed([pp.value] + rp.value, rp.next, pp.notes + rp.notes))
  }

  /** One round of the pairs loop. */
  lemma PairsCons(b: Bytes, j: nat, remaining: int, cfg: Config, pp: Parsed<(Key, Value)>)
    requires j <= |b| && remaining > 0 && ParsePair(b, j, cfg) == Ok(pp)
    ensures pp.next <= |b|
    ensures ParsePairs(b, j, remaining, cfg) == ConsPair(pp, ParsePairs(b, pp.next, remaining - 1, cfg))
  {
  }

  /** Only the six tags `s: i: d: b: N; a:` start a value; anything else is refused at the
      tag, whatever the leniency. */
  lemma UnsupportedTag(b: Bytes, i: nat, cfg: Config)
    requires i <= |b|
    requires PySlice(b, i, i + 2) !in {[LOWER_S, COLON], [LOWER_I, COLON], [LOWER_D, COLON],
                                       [LOWER_B, COLON], [UPPER_N, SEMICOLON], [LOWER_A, COLON]}
    ensures ParseValue(b, i, cfg) == Err(ParseError(UnsupportedValueType, i))
  {
  }

  /** `N;` is null; `b:1;` and `b:0;` are the booleans; any other `b:` body is refused just
      after the tag. */
  lemma ScalarTokens(b: Bytes, i: nat, cfg: Config)
    requires i + 2 <= |b|
    ensures b[i..i + 2] == [UPPER_N, SEMICOLON] ==> ParseValue(b, i, cfg) == Ok(Parsed(Null, i + 2, []))
    ensures b[i..i + 2] == [LOWER_B, COLON] ==>
      if i + 4 <= |b| && b[i + 3] == SEMICOLON && (b[i + 2] == ZERO || b[i + 2] == ONE)
      then ParseValue(b, i, cfg) == Ok(Parsed(Bool(b[i + 2] == ONE), i + 4, []))
      else ParseValue(b, i, cfg) == Err(ParseError(InvalidBoolean, i + 2))
  {
  }

  /** Fewer bytes left than declared: strict mode refuses at the payload offset; lenient
      mode either repairs with exactly one "short" note holding both lengths, or finds no
      closing quote in its window and refuses at the same offset. */
  lemma ShortString(b: Bytes, start: nat, declared: nat, lenient: bool)
    requires start <= |b| && |b| - start < declared
    ensures !lenient ==> StringBody(b, start, declared, lenient) == Err(ParseError(StringTooShort, start))
    ensures lenient && StringBody(b, start, declared, lenient).Ok? ==>
      StringBody(b, start, declared, lenient).parsed.notes
        == [StringLengthRepairShort(start, declared, |StringBody(b, start, declared, lenient).parsed.value|)]
    ensures lenient && StringBody(b, start, declared, lenient).Err? ==>
      && StringBody(b, start, declared, lenient).error == ParseError(NoViableClosing, start)
      && forall q | start <= q < ScanLimit(b, start) :: !ClosesAt(b, q)
  {
    ScanCloseIsFirst(b, start, start);
  }

  /** When the declared length does not close the string, lenient mode takes the FIRST
      closing quote in the look-ahead window, or refuses when there is none. */
  lemma RepairTakesFirstClose(b: Bytes, start: nat, declared: nat)
    requires start <= |b| && !ClosesAt(b, start + declared)
    ensures var r := StringBody(b, start, declared, true);
      && (r.Ok? ==> start + |r.parsed.value| < ScanLimit(b, start)
                    && forall q | start <= q < start + |r.parsed.value| :: !ClosesAt(b, q))
      && (r.Err? <==> forall q | start <= q < ScanLimit(b, start) :: !ClosesAt(b, q))
  {
    ScanCloseIsFirst(b, start, start);
  }

  /** Keys are `i:` or `s:` only: any other tag is refused at the tag, and those two never
      give that error. */
  lemma KeyTags(b: Bytes, i: nat, cfg: Config)
    requires i <= |b|
    ensures PySlice(b, i, i + 2) != [LOWER_I, COLON] && PySlice(b, i, i + 2) != [LOWER_S, COLON] ==>
      ParseKey(b, i, cfg) == Err(ParseError(UnsupportedKeyType, i))
    ensures ParseKey(b, i, cfg).Err? && ParseKey(b, i, cfg).error.kind == UnsupportedKeyType ==>
      PySlice(b, i, i + 2) != [LOWER_I, COLON] && PySlice(b, i, i + 2) != [LOWER_S, COLON]
  {
    match TagAt(b, i)
    case IntTag =>
    case StrTag => StringErrorKinds(b, i + 2, cfg.lenient);
    case _ =>
  }

  /** The errors the string production can report. */
  lemma StringErrorKinds(b: Bytes, i: nat, lenient: bool)
    requires i <= |b|
    ensures ParseString(b, i, lenient).Err? ==>
      ParseString(b, i, lenient).error.kind in {DelimiterNotFound, InvalidStringLength, ExpectedOpeningQuote,
                                               StringTooShort, NoViableClosing, ExpectedClosing}
  {
    var h := StringLength(b, i);
    if h.Ok? {
      assert ParseString(b, i, lenient) == StringAfterLength(b, h.parsed, lenient);
      if h.parsed.value >= 0 && h.parsed.next < |b| && b[h.parsed.next] == QUOTE {
        BodyErrorKinds(b, h.parsed.next + 1, h.parsed.value, lenient);
      }
    }
  }

  lemma BodyErrorKinds(b: Bytes, start: nat, declared: nat, lenient: bool)
    requires start <= |b|
    ensures StringBody(b, start, declared, lenient).Err? ==>
      StringBody(b, start, declared, lenient).error.kind in {StringTooShort, NoViableClosing, ExpectedClosing}
  {
  }

  /** The entry point adds one `trailing_data` note, with the count of bytes left, exactly
      when a byte other than ASCII whitespace follows the root value. */
  lemma UnserializeTrailing(b: Bytes, p: Parsed<Value>)
    requires p.next <= |b|
    ensures WithTrailing(b, p) == Parsed(p.value, p.next,
        if exists k | p.next <= k < |b| :: !IsAsciiSpace(b[k])
        then p.notes + [TrailingData(p.next, |b| - p.next)]
        else p.notes)
  {
    TrailingBytes(b, p.next);
  }

  /** `b[from:].strip()` is non-empty exactly when a non-whitespace byte lies past `from`. */
  lemma TrailingBytes(b: Bytes, from: nat)
    requires from <= |b|
    ensures Strip(b[from..]) != [] <==> exists k | from <= k < |b| :: !IsAsciiSpace(b[k])
  {
    var rest := b[from..];
    assert forall k | from <= k < |b| :: b[k] == rest[k - from];
    if Strip(rest) != [] {
      var k :| 0 <= k < |rest| && !IsAsciiSpace(rest[k]);
      assert !IsAsciiSpace(b[from + k]);
    }
  }

  /** `a:0:{}` decodes to an empty dict, not an empty list. */
  lemma EmptyArrayIsDict(b: Bytes, i: nat, cfg: Config)
    requires i + 6 <= |b| && b[i..i + 6] == [LOWER_A, COLON, ZERO, COLON, LBRACE, RBRACE]
    ensures ParseValue(b, i, cfg) == Ok(Parsed(Dict([]), i + 6, []))
  {
    var w := b[i..i + 6];
    assert b[i] == w[0] && b[i + 1] == w[1] && b[i + 2] == w[2];
    assert b[i + 3] == w[3] && b[i + 4] == w[4] && b[i + 5] == w[5];
    assert TagAt(b, i) == ArrayTag;
    ZeroCountHead(b, i + 2);
    assert ParsePairs(b, i + 5, 0, cfg) == Ok(Parsed([], i + 5, []));
    assert Classify([]) == Dict([]);
  }

  lemma ZeroCountHead(b: Bytes, j: nat)
    requires j + 3 <= |b| && b[j] == ZERO && b[j + 1] == COLON && b[j + 2] == LBRACE
    ensures ArrayHead(b, j) == Ok(Parsed(0, j + 3, []))
  {
    assert ReadUntil(b, j, COLON) == Ok(Parsed([ZERO], j + 2, [])) by {
      assert Find(b, COLON, j, |b|) == Some(j + 1);
      assert b[j..j + 1] == [ZERO];
    }
    PyInt.IntBytesRoundTrip(0);
  }

  /** The keys of `ks` in order of first appearance, each once. */
  function FirstOccurrences(ks: seq<Key>): seq<Key>
  {
    if ks == [] then []
    else
      var r := FirstOccurrences(ks[..|ks| - 1]);
      if ks[|ks| - 1] in r then r else r + [ks[|ks| - 1]]
  }

  lemma InsertKeys(d: seq<(Key, Value)>, k: Key, v: Value)
    ensures Keys(Insert(d, k, v)) == if k in Keys(d) then Keys(d) else Keys(d) + [k]
  {
    match IndexOfKey(d, k)
    case Some(t) =>
      assert Keys(d)[t] == k;
      assert Keys(Insert(d, k, v)) == Keys(d);
    case None =>
      assert k !in Keys(d);
      assert Keys(Insert(d, k, v)) == Keys(d) + [k];
  }

  /** Building a dict keeps one entry per distinct key, in order of first appearance. */
  lemma {:induction false} BuildDictKeys(es: seq<(Key, Value)>)
    ensures Keys(BuildDict(es)) == FirstOccurrences(Keys(es))
  {
    if es != [] {
      var init := es[..|es| - 1];
      var last := es[|es| - 1];
      var ks := Keys(es);
      BuildDictKeys(init);
      InsertKeys(BuildDict(init), last.0, last.1);
      assert ks[..|ks| - 1] == Keys(init);
      assert FirstOccurrences(ks) == var r := FirstOccurrences(Keys(init));
        if last.0 in r then r else r + [last.0];
    }
  }

  /** No key appears twice in a built dict. */
  lemma {:induction false} BuildDictDistinct(es: seq<(Key, Value)>)
    ensures DistinctKeys(BuildDict(es))
  {
    if es != [] {
      var init := es[..|es| - 1];
      var last := es[|es| - 1];
      BuildDictDistinct(init);
      var d0 := BuildDict(init);
      match IndexOfKey(d0, last.0)
      case Some(t) =>
        assert forall s | 0 <= s < |d0| :: Insert(d0, last.0, last.1)[s].0 == d0[s].0;
      case None =>
    }
  }

  predicate DistinctKeys(d: seq<(Key, Value)>)
  {
    forall s, t | 0 <= s < t < |d| :: d[s].0 != d[t].0
  }

  /** A built dict holds exactly the keys of the pairs, and each key holds the value of the
      LAST pair with that key. */
  lemma {:induction false} BuildDictLastWins(es: seq<(Key, Value)>, k: Key)
    ensures var d := BuildDict(es);
      (IndexOfKey(d, k).Some? <==> IndexOfKey(es, k).Some?)
      && (IndexOfKey(d, k).Some? ==> d[IndexOfKey(d, k).value].1 == es[IndexOfKey(es, k).value].1)
  {
    if es != [] {
      var init := es[..|es| - 1];
      BuildDictLastWins(init, k);
      if es[|es| - 1].0 == k {
        LastPairWins(es, k);
      } else {
        EarlierPairWins(es, k);
      }
    }
  }

  /** The step of `BuildDictLastWins` when the last pair has the key. */
  lemma LastPairWins(es: seq<(Key, Value)>, k: Key)
    requires es != [] && es[|es| - 1].0 == k
    ensures var d := BuildDict(es);
      IndexOfKey(d, k).Some? && IndexOfKey(es, k).Some?
      && d[IndexOfKey(d, k).value].1 == es[IndexOfKey(es, k).value].1
  {
    var init := es[..|es| - 1];
    var last := es[|es| - 1];
    BuildDictDistinct(init);
    var d0 := BuildDict(init);
    var d := Insert(d0, last.0, last.1);
    assert BuildDict(es) == d;
    assert IndexOfKey(es, k) == Some(|es| - 1);
    match IndexOfKey(d0, k)
    case Some(t) =>
      assert forall s | 0 <= s < |d0| :: d[s].0 == d0[s].0;
      assert DistinctKeys(d);
      DistinctKeysIndex(d, t, k);
    case None =>
      assert d[|d| - 1] == (k, last.1);
  }

  /** The step of `BuildDictLastWins` when the last pair has another key. */
  lemma EarlierPairWins(es: seq<(Key, Value)>, k: Key)
    requires es != [] && es[|es| - 1].0 != k
    requires var d := BuildDict(es[..|es| - 1]);
      (IndexOfKey(d, k).Some? <==> IndexOfKey(es[..|es| - 1], k).Some?)
      && (IndexOfKey(d, k).Some? ==>
            d[IndexOfKey(d, k).value].1 == es[..|es| - 1][IndexOfKey(es[..|es| - 1], k).value].1)
    ensures var d := BuildDict(es);
      (IndexOfKey(d, k).Some? <==> IndexOfKey(es, k).Some?)
      && (IndexOfKey(d, k).Some? ==> d[IndexOfKey(d, k).value].1 == es[IndexOfKey(es, k).value].1)
  {
    var init := es[..|es| - 1];
    var last := es[|es| - 1];
    var d0 := BuildDict(init);
    var d := Insert(d0, last.0, last.1);
    assert BuildDict(es) == d;
    assert IndexOfKey(es, k) == IndexOfKey(init, k);
    match IndexOfKey(d0, last.0)
    case Some(t) =>
      assert forall s | 0 <= s < |d| :: d[s].0 == d0[s].0;
      SameKeysIndex(d0, d, k);
      var r := IndexOfKey(d0, k);
      if r.Some? {
        assert r.value != t;
      }
    case None =>
      assert d[..|d| - 1] == d0;
  }

  lemma DistinctKeysIndex(d: seq<(Key, Value)>, t: nat, k: Key)
    requires t < |d| && d[t].0 == k
    requires DistinctKeys(d)
    ensures IndexOfKey(d, k) == Some(t)
  {
  }

  lemma {:induction false} SameKeysIndex(d0: seq<(Key, Value)>, d: seq<(Key, Value)>, k: Key)
    requires |d0| == |d| && forall s | 0 <= s < |d| :: d[s].0 == d0[s].0
    ensures IndexOfKey(d, k) == IndexOfKey(d0, k)
    decreases |d|
  {
    if d != [] && d[|d| - 1].0 != k {
      SameKeysIndex(d0[..|d| - 1], d[..|d| - 1], k);
    }
  }
}
