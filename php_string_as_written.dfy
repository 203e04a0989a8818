/** `_parse_string` exactly as written, including what it does with a negative declared
    length: Python offsets are plain integers there, a negative end offset counts from the
    end of the input in slices and indexing, and the parse can hand back an offset before
    the one it started from. PhpGrammar.ParseString is the corrected production, which
    refuses a negative length; StringAgreement shows that the two differ nowhere else. */
module PhpStringAsWritten {
  import opened PySeq
  import opened PyBytes
  import PyInt
  import opened PhpGrammar

  /** What the source's `_parse_string` does: returns a payload and an offset (any
      integer), or raises a ParseError at an integer offset. */
  datatype Outcome =
    | Returned(payload: Bytes, next: int, notes: seq<Note>)
    | Raised(kind: ErrorKind, pos: int)

  function ToOutcome(r: Result<Bytes>): Outcome
  {
    match r
    case Ok(p) => Returned(p.value, p.next, p.notes)
    case Err(e) => Raised(e.kind, e.pos)
  }

  /** Python's `b[j]` for `-|b| <= j < |b|`. */
  function At(b: Bytes, j: int): byte
    requires -|b| <= j < |b|
  {
    if j < 0 then b[j + |b|] else b[j]
  }

  /** The whitespace loop after the closing quote, on a possibly negative offset `j`. */
  function SkipSpaceFrom(b: Bytes, j: int): (k: int)
    requires -|b| <= j <= |b|
    ensures j <= k <= |b|
    ensures j >= 0 ==> k == SkipSpace(b, j)
    decreases |b| - j
  {
    if j < |b| && IsTerminatorSpace(At(b, j)) then SkipSpaceFrom(b, j + 1) else j
  }

  /** `_parse_string` as written, from the offset just after `s:`. */
  function StringAsWritten(b: Bytes, i: nat, lenient: bool): (r: Outcome)
    requires i <= |b|
  {
    match StringLength(b, i)
    case Err(e) => Raised(e.kind, e.pos)
    case Ok(h) => AfterLengthAsWritten(b, h, lenient)
  }

  /** The opening-quote check and the body, with no check on the sign of the length. */
  function AfterLengthAsWritten(b: Bytes, h: Parsed<int>, lenient: bool): (r: Outcome)
    requires h.next <= |b|
  {
    if PySlice(b, h.next, h.next + 1) != [QUOTE] then Raised(ExpectedOpeningQuote, h.next)
    else BodyAsWritten(b, h.next + 1, h.value, lenient)
  }

  /** The part after the opening quote; `start` is the payload offset. */
  function BodyAsWritten(b: Bytes, start: nat, strlen: int, lenient: bool): (r: Outcome)
    requires start <= |b|
  {
    if |b| - start < strlen then
      if !lenient then Raised(StringTooShort, start)
      else ToOutcome(Repaired(b, start, strlen, true, start))
    else
      var end := start + strlen;
      var stop := StopAsWritten(b, end);
      if ClosedAsWritten(b, end) then Returned(PySlice(b, start, end), stop + 1, [])
      else if !lenient then Raised(ExpectedClosing, stop)
      else Rescan(b, start, strlen, stop)
  }

  /** `b[end:end+1] == b'"'`, on a possibly negative `end`. */
  predicate QuotedAsWritten(b: Bytes, end: int)
  {
    PySlice(b, end, end + 1) == [QUOTE]
  }

  /** Where the closing check stops: past the whitespace after a quote at `end`, or `end`. */
  function StopAsWritten(b: Bytes, end: int): (k: int)
    ensures QuotedAsWritten(b, end) ==> end < k <= |b|
  {
    if QuotedAsWritten(b, end) then (QuotedBounds(b, end); SkipSpaceFrom(b, end + 1)) else end
  }

  /** The closing check as written succeeds: a quote at `end`, whitespace, and a `;`. */
  predicate ClosedAsWritten(b: Bytes, end: int)
  {
    var stop := StopAsWritten(b, end);
    QuotedAsWritten(b, end) && PySlice(b, stop, stop + 1) == [SEMICOLON]
  }

  /** A quote found by `b[end:end+1]` lies inside the input, and not at `-1`. */
  lemma QuotedBounds(b: Bytes, end: int)
    requires PySlice(b, end, end + 1) == [QUOTE]
    ensures -|b| <= end < |b| && end != -1
  {
  }

  /** The lenient fallback after a failed closing check that stopped at `errPos`. */
  function Rescan(b: Bytes, start: nat, strlen: int, errPos: int): (r: Outcome)
    ensures r.Raised? ==> r.kind == ExpectedClosing && r.pos == errPos
    ensures r.Returned? ==> (r.notes == [] <==> |r.payload| == strlen)
  {
    match ScanClose(b, start, start)
    case None => Raised(ExpectedClosing, errPos)
    case Some(q) =>
      Returned(b[start..q], Resume(b, q),
               if q - start != strlen then [StringLengthRepairMismatch(start, strlen, q - start)] else [])
  }

  /** The `s:<len>:` header parses, and the length is negative. */
  predicate NegativeLength(b: Bytes, i: nat)
    requires i <= |b|
  {
    StringLength(b, i).Ok? && StringLength(b, i).parsed.value < 0
  }

  /** Outside the negative-length case, the source's production is the corrected one. */
  lemma StringAgreement(b: Bytes, i: nat, lenient: bool)
    requires i <= |b|
    ensures !NegativeLength(b, i) ==> StringAsWritten(b, i, lenient) == ToOutcome(ParseString(b, i, lenient))
  {
    if StringLength(b, i).Ok? && !NegativeLength(b, i) {
      AfterLengthAgreement(b, StringLength(b, i).parsed, lenient);
    }
  }

  lemma AfterLengthAgreement(b: Bytes, h: Parsed<int>, lenient: bool)
    requires h.next <= |b| && h.value >= 0
    ensures AfterLengthAsWritten(b, h, lenient) == ToOutcome(StringAfterLength(b, h, lenient))
  {
    assert (PySlice(b, h.next, h.next + 1) == [QUOTE]) == (h.next < |b| && b[h.next] == QUOTE);
    if h.next < |b| && b[h.next] == QUOTE {
      BodyAgreement(b, h.next + 1, h.value, lenient);
    }
  }

  /** The corrected production refuses a negative length at the offset past its colon. */
  lemma NegativeLengthRefused(b: Bytes, i: nat, lenient: bool)
    requires i <= |b| && NegativeLength(b, i)
    ensures ParseString(b, i, lenient) == Err(ParseError(InvalidStringLength, StringLength(b, i).parsed.next))
  {
  }

  /** With a non-negative declared length, the body as written is PhpGrammar.StringBody. */
  lemma BodyAgreement(b: Bytes, start: nat, declared: nat, lenient: bool)
    requires start <= |b|
    ensures BodyAsWritten(b, start, declared, lenient) == ToOutcome(StringBody(b, start, declared, lenient))
  {
    if |b| - start >= declared {
      LongBodyAgreement(b, start, declared, lenient);
    }
  }

  lemma LongBodyAgreement(b: Bytes, start: nat, declared: nat, lenient: bool)
    requires start + declared <= |b|
    ensures BodyAsWritten(b, start, declared, lenient) == ToOutcome(StringBody(b, start, declared, lenient))
  {
    ClosingAgreement(b, start + declared);
    if ClosesAt(b, start + declared) {
      ClosedBodyAgreement(b, start, declared, lenient);
    } else {
      UnclosedBodyAgreement(b, start, declared, lenient);
    }
  }

  /** A body closed at its declared end: both return the payload and resume after `";`. */
  lemma ClosedBodyAgreement(b: Bytes, start: nat, declared: nat, lenient: bool)
    requires start + declared <= |b| && ClosesAt(b, start + declared)
    requires ClosedAsWritten(b, start + declared)
    requires StopAsWritten(b, start + declared) + 1 == Resume(b, start + declared)
    ensures BodyAsWritten(b, start, declared, lenient) == ToOutcome(StringBody(b, start, declared, lenient))
  {
    ClosedBodyAsWritten(b, start, declared, lenient);
    assert StringBody(b, start, declared, lenient)
      == Ok(Parsed(b[start..start + declared], Resume(b, start + declared), []));
  }

  lemma ClosedBodyAsWritten(b: Bytes, start: nat, declared: nat, lenient: bool)
    requires start + declared <= |b| && ClosesAt(b, start + declared)
    requires ClosedAsWritten(b, start + declared)
    requires StopAsWritten(b, start + declared) + 1 == Resume(b, start + declared)
    ensures BodyAsWritten(b, start, declared, lenient)
      == Returned(b[start..start + declared], Resume(b, start + declared), [])
  {
    assert PySlice(b, start, start + declared) == b[start..start + declared];
  }

  /** A body not closed at its declared end: both fail in strict mode at the same offset, and
      both rescan in lenient mode. */
  lemma UnclosedBodyAgreement(b: Bytes, start: nat, declared: nat, lenient: bool)
    requires start + declared <= |b| && !ClosesAt(b, start + declared)
    requires !ClosedAsWritten(b, start + declared)
    requires StopAsWritten(b, start + declared)
      == if start + declared < |b| && b[start + declared] == QUOTE then SkipSpace(b, start + declared + 1)
         else start + declared
    ensures BodyAsWritten(b, start, declared, lenient) == ToOutcome(StringBody(b, start, declared, lenient))
  {
    var stop := StopAsWritten(b, start + declared);
    assert BodyAsWritten(b, start, declared, lenient)
        == if !lenient then Raised(ExpectedClosing, stop) else Rescan(b, start, declared, stop);
    assert StringBody(b, start, declared, lenient)
        == if !lenient then Err(ParseError(ExpectedClosing, stop)) else Repaired(b, start, declared, false, stop);
    RescanAgreement(b, start, declared, stop);
  }

  lemma RescanAgreement(b: Bytes, start: nat, declared: nat, errPos: nat)
    requires start <= |b| && errPos <= |b|
    ensures Rescan(b, start, declared, errPos) == ToOutcome(Repaired(b, start, declared, false, errPos))
  {
  }

  /** The closing check as written decides ClosesAt, and stops where StringBody reports. */
  lemma ClosingAgreement(b: Bytes, end: nat)
    requires end <= |b|
    ensures ClosedAsWritten(b, end) == ClosesAt(b, end)
    ensures ClosesAt(b, end) ==> StopAsWritten(b, end) + 1 == Resume(b, end)
    ensures StopAsWritten(b, end) == if end < |b| && b[end] == QUOTE then SkipSpace(b, end + 1) else end
  {
    assert QuotedAsWritten(b, end) == (end < |b| && b[end] == QUOTE);
    var k := StopAsWritten(b, end);
    if QuotedAsWritten(b, end) {
      assert (PySlice(b, k, k + 1) == [SEMICOLON]) == (k < |b| && b[k] == SEMICOLON);
    }
  }

  /** In `a:2:{i:0;s:1:"x";i:1;s:-13:"`, the second value's declared length -13 sends the
      end offset back to 15, where the `";` closing `"x"` stands: the source returns an
      empty payload and resumes at 17, before the value's own offset 21. The corrected
      production refuses the length, at the quote at 27. */
  lemma NegativeLengthRewinds()
    ensures StringAsWritten(Sample(), 23, false) == Returned([], 17, [])
    ensures ParseString(Sample(), 23, false) == Err(ParseError(InvalidStringLength, 27))
  {
    var b := Sample();
    assert b[15] == QUOTE && b[16] == SEMICOLON && b[27] == QUOTE;
    assert b[23..26] == [MINUS, ONE, ZERO + 3];
    assert b[23] != COLON && b[24] != COLON && b[25] != COLON && b[26] == COLON;
    Rewinds(b);
  }

  /** After that rewind the loop has read both of its pairs and stands at 17, so the array
      production looks for `}` there, finds the `i` of `i:1;`, and reports the missing
      close brace at 17 instead of the invalid length. */
  lemma RewoundArrayUnclosed(pairs: seq<(Key, Value)>, notes: seq<Note>)
    ensures ArrayTail(Sample(), Parsed(pairs, 17, notes)) == Err(ParseError(ExpectedCloseBrace, 17))
  {
    assert Sample()[17] == LOWER_I;
  }

  /** Any 28-byte input with these bytes rewinds the same way: `"` and `;` at 15 and 16,
      and `-13:"` from 23. */
  lemma Rewinds(b: Bytes)
    requires |b| == 28
    requires b[15] == QUOTE && b[16] == SEMICOLON && b[27] == QUOTE
    requires b[23..26] == [MINUS, ONE, ZERO + 3] && b[26] == COLON
    ensures StringAsWritten(b, 23, false) == Returned([], 17, [])
    ensures ParseString(b, 23, false) == Err(ParseError(InvalidStringLength, 27))
  {
    Header(b);
    var h := Parsed(-13, 27, []);
    assert BodyAsWritten(b, 28, -13, false) == Returned([], 17, []) by {
      assert PySlice(b, 28, 15) == [];
      assert PySlice(b, 15, 16) == [QUOTE];
      assert SkipSpaceFrom(b, 16) == 16;
      assert StopAsWritten(b, 15) == 16;
      assert PySlice(b, 16, 17) == [SEMICOLON];
      assert ClosedAsWritten(b, 15);
    }
    assert AfterLengthAsWritten(b, h, false) == Returned([], 17, []) by {
      assert PySlice(b, 27, 28) == [QUOTE];
    }
    assert StringAsWritten(b, 23, false) == AfterLengthAsWritten(b, h, false);
    assert ParseString(b, 23, false) == StringAfterLength(b, h, false);
  }

  /** The header `s:-13:` read from offset 23. */
  lemma Header(b: Bytes)
    requires |b| == 28
    requires b[23..26] == [MINUS, ONE, ZERO + 3] && b[26] == COLON
    ensures StringLength(b, 23) == Ok(Parsed(-13, 27, []))
  {
    assert Find(b, COLON, 23, 28) == Some(26) by {
      assert b[23] != COLON && b[24] != COLON && b[25] != COLON;
    }
    var lit := b[23..26];
    MinusThirteen(lit);
    assert ReadUntil(b, 23, COLON) == Ok(Parsed(lit, 27, []));
  }

  lemma MinusThirteen(lit: Bytes)
    requires lit == [MINUS, ONE, ZERO + 3]
    ensures PyInt.ParseInt(lit) == Some(-13)
  {
    assert PyBytes.Strip(lit) == lit;
    var body := lit[1..];
    assert body == [ONE, ZERO + 3];
    assert PyInt.SplitSign(lit) == (true, body);
    assert PyInt.IsDigitBody(body);
    assert PyInt.Digits(body) == body by {
      assert forall x | x in body :: IsDigit(x);
    }
    assert body[..1] == [ONE];
    assert [ONE][..0] == [];
    assert PyInt.DigitsValue([ONE]) == 1;
    assert PyInt.DigitsValue(body) == 13;
  }

  /** `a:2:{i:0;s:1:"x";i:1;s:-13:"` */
  function Sample(): (b: Bytes)
    ensures |b| == 28
  {
    [LOWER_A, COLON, ZERO + 2, COLON, LBRACE,
     LOWER_I, COLON, ZERO, SEMICOLON,
     LOWER_S, COLON, ONE, COLON, QUOTE, 120, QUOTE, SEMICOLON,
     LOWER_I, COLON, ONE, SEMICOLON,
     LOWER_S, COLON, MINUS, ONE, ZERO + 3, COLON, QUOTE]
  }
}
