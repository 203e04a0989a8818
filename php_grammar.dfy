/** The PHP `serialize()` byte grammar as read by the converter's decoder
    (`_parse_value` and its helpers): values, notes, parse errors, and one function per
    production. Each function returns the decoded value, the offset just past it, and the
    repair notes the production recorded, in order. The leniency switch and the note list,
    which the source keeps in module-level globals, are a parameter and a result here. */
module PhpGrammar {
  import opened PySeq
  import opened PyBytes
  import PyInt

  /** An array key: `i:` keys are integers, `s:` keys are decoded strings. */
  datatype Key = IntKey(n: int) | StrKey(s: string)

  /** A decoded value. A string holds its payload as decoded by `_decode_bytes`; a float
      keeps its literal text. */
  datatype Value =
    | Null
    | Bool(b: bool)
    | Int(n: int)
    | Float(literal: Bytes)
    | Str(s: string)
    | List(items: seq<Value>)
    | Dict(entries: seq<(Key, Value)>)

  /** A non-fatal repair note (`_warn`); `atByte` is the offset of the string payload. */
  datatype Note =
    | StringLengthRepairShort(atByte: nat, declaredLength: int, actualLength: nat)
    | StringLengthRepairMismatch(atByte: nat, declaredLength: int, actualLength: nat)
    | TrailingData(atByte: nat, bytesRemaining: nat)

  datatype ErrorKind =
    | DelimiterNotFound      // "Unexpected end: delimiter not found"
    | InvalidInteger
    | InvalidFloat
    | InvalidBoolean         // "Invalid boolean token (expected 0; or 1;)"
    | InvalidStringLength
    | ExpectedOpeningQuote
    | StringTooShort         // "String length mismatch vs s:<len> (too short)"
    | NoViableClosing        // "String length mismatch and no viable closing found"
    | ExpectedClosing        // "Expected closing \";\" for string"
    | UnsupportedKeyType
    | InvalidArrayCount
    | ExpectedOpenBrace      // "Expected \"{\" after array length"
    | ExpectedCloseBrace     // "Expected \"}\" to close array"
    | UnsupportedValueType

  datatype ParseError = ParseError(kind: ErrorKind, pos: nat)

  /** A production's result: the value, the offset just past it, the notes it recorded. */
  datatype Parsed<T> = Parsed(value: T, next: nat, notes: seq<Note>)

  datatype Result<T> = Ok(parsed: Parsed<T>) | Err(error: ParseError)

  /** The decoder's inputs besides the bytes: the leniency switch
      (`LENIENT_STRING_TERMINATOR`), and two library routines that are left to the caller:
      whether Python's `float()` accepts a literal, and `_decode_bytes` (UTF-8, falling back
      to Latin-1). */
  datatype Config = Config(lenient: bool, isFloat: Bytes -> bool, decode: Bytes -> string)

  /** `_read_until`: the bytes from `i` up to the first `delim`, and the offset past it. */
  function ReadUntil(b: Bytes, i: nat, delim: byte): (r: Result<Bytes>)
    requires i <= |b|
    ensures r.Err? <==> delim !in b[i..]
    ensures r.Err? ==> r.error == ParseError(DelimiterNotFound, i)
    ensures r.Ok? ==> var p := r.parsed;
      && i < p.next <= |b| && b[p.next - 1] == delim
      && p.value == b[i..p.next - 1] && delim !in p.value && p.notes == []
  {
    match Find(b, delim, i, |b|)
    case None =>
      assert forall x | x in b[i..] :: x != delim;
      Err(ParseError(DelimiterNotFound, i))
    case Some(j) =>
      assert b[j] == b[i..][j - i];
      Ok(Parsed(b[i..j], j + 1, []))
  }

  /** `_parse_int`; the error offset is the one past the `;`, as in the source. */
  function ParseInt(b: Bytes, i: nat): (r: Result<int>)
    requires i <= |b|
    ensures r.Ok? ==> i < r.parsed.next <= |b| && r.parsed.notes == []
    ensures r.Err? ==> r.error.pos <= |b|
  {
    match ReadUntil(b, i, SEMICOLON)
    case Err(e) => Err(e)
    case Ok(p) =>
      match PyInt.ParseInt(p.value)
      case None => Err(ParseError(InvalidInteger, p.next))
      case Some(n) => Ok(Parsed(n, p.next, []))
  }

  /** `_parse_float`; the value keeps the literal bytes. */
  function ParseFloat(b: Bytes, i: nat, isFloat: Bytes -> bool): (r: Result<Bytes>)
    requires i <= |b|
    ensures r.Ok? ==> i < r.parsed.next <= |b| && r.parsed.notes == []
    ensures r.Ok? ==> isFloat(r.parsed.value) && SEMICOLON !in r.parsed.value
    ensures r.Err? ==> r.error.pos <= |b|
  {
    match ReadUntil(b, i, SEMICOLON)
    case Err(e) => Err(e)
    case Ok(p) =>
      if isFloat(p.value) then Ok(Parsed(p.value, p.next, []))
      else Err(ParseError(InvalidFloat, p.next))
  }

  /** `_parse_bool`: only `0;` and `1;` are accepted. */
  function ParseBool(b: Bytes, i: nat): (r: Result<bool>)
    requires i <= |b|
    ensures r.Ok? <==> i + 2 <= |b| && b[i + 1] == SEMICOLON && (b[i] == ZERO || b[i] == ONE)
    ensures r.Ok? ==> r.parsed == Parsed(b[i] == ONE, i + 2, [])
    ensures r.Err? ==> r.error == ParseError(InvalidBoolean, i)
  {
    var t := PySlice(b, i, i + 2);
    if t != [ZERO, SEMICOLON] && t != [ONE, SEMICOLON] then Err(ParseError(InvalidBoolean, i))
    else Ok(Parsed(b[i] == ONE, i + 2, []))
  }

  /** Whitespace allowed between a string's closing quote and its `;`: `b' \t\r\n'`. */
  predicate IsTerminatorSpace(x: byte)
  {
    x == SPACE || x == TAB || x == CR || x == LF
  }

  /** The first offset at or after `j` that does not hold terminator whitespace. */
  function SkipSpace(b: Bytes, j: nat): (k: nat)
    requires j <= |b|
    ensures j <= k <= |b|
    ensures forall m | j <= m < k :: IsTerminatorSpace(b[m])
    ensures k < |b| ==> !IsTerminatorSpace(b[k])
    decreases |b| - j
  {
    if j < |b| && IsTerminatorSpace(b[j]) then SkipSpace(b, j + 1) else j
  }

  /** Offset `q` holds a `"` that is followed by optional whitespace and a `;`. */
  predicate ClosesAt(b: Bytes, q: nat)
  {
    q < |b| && b[q] == QUOTE && var j := SkipSpace(b, q + 1); j < |b| && b[j] == SEMICOLON
  }

  /** Where parsing resumes after the closing quote at `q`: just past its `;`. */
  function Resume(b: Bytes, q: nat): (r: nat)
    requires ClosesAt(b, q)
    ensures q + 2 <= r <= |b| && b[r - 1] == SEMICOLON
  {
    SkipSpace(b, q + 1) + 1
  }

  const MAX_LOOKAHEAD: nat := 1_000_000

  /** The end of the repair scan's window: at most MAX_LOOKAHEAD bytes past `start`. */
  function ScanLimit(b: Bytes, start: nat): (l: nat)
    ensures l <= |b| && l <= start + MAX_LOOKAHEAD
    ensures l == |b| || l == start + MAX_LOOKAHEAD
  {
    if |b| < start + MAX_LOOKAHEAD then |b| else start + MAX_LOOKAHEAD
  }

  /** `_lenient_scan_close` from candidate offset `k`: the first offset in the window
      `k .. ScanLimit(b, start)` holding a quote that closes a string, or None (ScanCloseIsFirst).
      Only the quote must lie in the window; the whitespace and `;` after it may lie beyond.
      (The source jumps from quote to quote with `find`; offsets without a quote never close.) */
  function ScanClose(b: Bytes, start: nat, k: nat): (r: Option<nat>)
    ensures r.Some? ==> k <= r.value < ScanLimit(b, start) && ClosesAt(b, r.value)
    decreases ScanLimit(b, start) - k
  {
    if k >= ScanLimit(b, start) then None
    else if ClosesAt(b, k) then Some(k)
    else ScanClose(b, start, k + 1)
  }

  /** The repair scan finds the first closing quote in its window, and finds none exactly
      when the window holds none. */
  lemma {:induction false} ScanCloseIsFirst(b: Bytes, start: nat, k: nat)
    ensures var r := ScanClose(b, start, k);
      && (r.None? <==> forall q | k <= q < ScanLimit(b, start) :: !ClosesAt(b, q))
      && (r.Some? ==> forall q | k <= q < r.value :: !ClosesAt(b, q))
    decreases ScanLimit(b, start) - k
  {
    if k < ScanLimit(b, start) && !ClosesAt(b, k) {
      ScanCloseIsFirst(b, start, k + 1);
    }
  }

  /** Conversely, a closing quote in the window with none before it is what the scan finds. */
  lemma {:induction false} ScanCloseFinds(b: Bytes, start: nat, k: nat, q: nat)
    requires k <= q < ScanLimit(b, start) && ClosesAt(b, q)
    requires forall m | k <= m < q :: !ClosesAt(b, m)
    ensures ScanClose(b, start, k) == Some(q)
    decreases q - k
  {
    if k < q {
      ScanCloseFinds(b, start, k + 1, q);
    }
  }

  /** `p` is a string payload read from `start`: it is followed by a closing `"`, optional
      whitespace and a `;`, and parsing resumes just past that `;`. */
  predicate ClosedPayload(b: Bytes, start: nat, p: Parsed<Bytes>)
  {
    var q := start + |p.value|;
    && ClosesAt(b, q) && p.value == b[start..q] && p.next == Resume(b, q)
  }

  /** The lenient repair: `_lenient_scan_close` from `start`, and the note it leaves.
      `short` tells the too-short case (always noted) from the mismatch case (noted when the
      lengths differ); `errPos` is where a failed mismatch repair reports. */
  function Repaired(b: Bytes, start: nat, declared: nat, short: bool, errPos: nat): (r: Result<Bytes>)
    requires start <= |b| && errPos <= |b|
    requires short ==> |b| - start < declared
    ensures r.Ok? ==> ClosedPayload(b, start, r.parsed) && start < r.parsed.next <= |b|
    ensures r.Ok? ==> |r.parsed.notes| <= 1 && (r.parsed.notes == [] <==> |r.parsed.value| == declared)
    ensures r.Err? ==> r.error.pos <= |b|
  {
    match ScanClose(b, start, start)
    case None => Err(ParseError(if short then NoViableClosing else ExpectedClosing, if short then start else errPos))
    case Some(q) =>
      var notes :=
        if short then [StringLengthRepairShort(start, declared, q - start)]
        else if q - start != declared then [StringLengthRepairMismatch(start, declared, q - start)]
        else [];
      Ok(Parsed(b[start..q], Resume(b, q), notes))
  }

  /** The part of `_parse_string` after the opening quote: `start` is the payload offset,
      `declared` the length from `s:<len>:`. */
  function StringBody(b: Bytes, start: nat, declared: nat, lenient: bool): (r: Result<Bytes>)
    requires start <= |b|
    ensures r.Ok? ==> start < r.parsed.next <= |b|
    ensures r.Err? ==> r.error.pos <= |b|
    // whichever way it was found, the payload is followed by a closing `"`, whitespace, `;`
    ensures r.Ok? ==> ClosedPayload(b, start, r.parsed)
    // a note is recorded exactly when the payload length differs from the declared one
    ensures r.Ok? ==> |r.parsed.notes| <= 1 && (r.parsed.notes == [] <==> |r.parsed.value| == declared)
    // strict mode accepts exactly the payloads whose declared length is right
    ensures !lenient ==> (r.Ok? <==> ClosesAt(b, start + declared))
  {
    if |b| - start < declared then
      if !lenient then Err(ParseError(StringTooShort, start))
      else Repaired(b, start, declared, true, start)
    else
      var end := start + declared;
      if ClosesAt(b, end) then
        var r := Ok(Parsed(b[start..end], Resume(b, end), []));
        assert ClosedPayload(b, start, r.parsed);
        r
      else
        var errPos := if end < |b| && b[end] == QUOTE then SkipSpace(b, end + 1) else end;
        if !lenient then Err(ParseError(ExpectedClosing, errPos))
        else Repaired(b, start, declared, false, errPos)
  }

  /** The `<len>:` header of `_parse_string`: the declared length, and the offset past the colon. */
  function StringLength(b: Bytes, i: nat): (r: Result<int>)
    requires i <= |b|
    ensures r.Ok? ==> i < r.parsed.next <= |b| && r.parsed.notes == [] && b[r.parsed.next - 1] == COLON
    ensures r.Err? ==> r.error.pos <= |b|
  {
    match ReadUntil(b, i, COLON)
    case Err(e) => Err(e)
    case Ok(lp) =>
      match PyInt.ParseInt(lp.value)
      case None => Err(ParseError(InvalidStringLength, lp.next))
      case Some(declared) => Ok(Parsed(declared, lp.next, []))
  }

  /** `_parse_string` from the offset just after `s:`; the result is the raw payload, which
      the caller decodes. A negative declared length is refused (see the findings in the
      README; PhpStringAsWritten models the code as written). */
  function ParseString(b: Bytes, i: nat, lenient: bool): (r: Result<Bytes>)
    requires i <= |b|
    ensures r.Ok? ==> i < r.parsed.next <= |b|
    ensures r.Err? ==> r.error.pos <= |b|
  {
    match StringLength(b, i)
    case Err(e) => Err(e)
    case Ok(h) => StringAfterLength(b, h, lenient)
  }

  /** `_parse_string` once the header `h` is read: the length check, the opening quote, the body. */
  function StringAfterLength(b: Bytes, h: Parsed<int>, lenient: bool): (r: Result<Bytes>)
    requires h.next <= |b|
    ensures r.Ok? ==> h.next < r.parsed.next <= |b|
    ensures r.Err? ==> r.error.pos <= |b|
  {
    if h.value < 0 then Err(ParseError(InvalidStringLength, h.next))
    else if !(h.next < |b| && b[h.next] == QUOTE) then Err(ParseError(ExpectedOpeningQuote, h.next))
    else StringBody(b, h.next + 1, h.value, lenient)
  }

  /** The two-byte tag `b[i:i+2]` that selects a production. */
  datatype Tag = StrTag | IntTag | FloatTag | BoolTag | NullTag | ArrayTag | OtherTag

  function TagAt(b: Bytes, i: nat): (t: Tag)
    ensures t != OtherTag ==> i + 2 <= |b|
    ensures t == StrTag <==> PySlice(b, i, i + 2) == [LOWER_S, COLON]
    ensures t == IntTag <==> PySlice(b, i, i + 2) == [LOWER_I, COLON]
    ensures t == FloatTag <==> PySlice(b, i, i + 2) == [LOWER_D, COLON]
    ensures t == BoolTag <==> PySlice(b, i, i + 2) == [LOWER_B, COLON]
    ensures t == NullTag <==> PySlice(b, i, i + 2) == [UPPER_N, SEMICOLON]
    ensures t == ArrayTag <==> PySlice(b, i, i + 2) == [LOWER_A, COLON]
  {
    if i + 2 > |b| then
      assert |PySlice(b, i, i + 2)| < 2;
      OtherTag
    else
      var two := PySlice(b, i, i + 2);
      assert |two| == 2 && two[0] == b[i] && two[1] == b[i + 1];
      if b[i + 1] == COLON then
        if b[i] == LOWER_S then StrTag
        else if b[i] == LOWER_I then IntTag
        else if b[i] == LOWER_D then FloatTag
        else if b[i] == LOWER_B then BoolTag
        else if b[i] == LOWER_A then ArrayTag
        else OtherTag
      else if b[i] == UPPER_N && b[i + 1] == SEMICOLON then NullTag
      else OtherTag
  }

  /** `_parse_key`: an `i:` or an `s:` key. */
  function ParseKey(b: Bytes, i: nat, cfg: Config): (r: Result<Key>)
    requires i <= |b|
    ensures r.Ok? ==> i < r.parsed.next <= |b|
    ensures r.Err? ==> r.error.pos <= |b|
  {
    match TagAt(b, i)
    case IntTag =>
      (match ParseInt(b, i + 2)
       case Err(e) => Err(e)
       case Ok(p) => Ok(Parsed(IntKey(p.value), p.next, p.notes)))
    case StrTag =>
      (match ParseString(b, i + 2, cfg.lenient)
       case Err(e) => Err(e)
       case Ok(p) => Ok(Parsed(StrKey(cfg.decode(p.value)), p.next, p.notes)))
    case _ => Err(ParseError(UnsupportedKeyType, i))
  }

  /** The parsed keys are exactly `0, 1, ..., n-1` for some n > 0. */
  predicate IsIndexSequence(entries: seq<(Key, Value)>)
  {
    |entries| > 0 && forall k | 0 <= k < |entries| :: entries[k].0 == IntKey(k)
  }

  function Values(entries: seq<(Key, Value)>): (vs: seq<Value>)
    ensures |vs| == |entries| && forall k | 0 <= k < |entries| :: vs[k] == entries[k].1
  {
    if entries == [] then [] else [entries[0].1] + Values(entries[1..])
  }

  function Keys(entries: seq<(Key, Value)>): (ks: seq<Key>)
    ensures |ks| == |entries| && forall k | 0 <= k < |entries| :: ks[k] == entries[k].0
  {
    if entries == [] then [] else [entries[0].0] + Keys(entries[1..])
  }

  /** Index of key `k` in `d`, if it is there. */
  function IndexOfKey(d: seq<(Key, Value)>, k: Key): (r: Option<nat>)
    ensures r.None? <==> forall t | 0 <= t < |d| :: d[t].0 != k
    ensures r.Some? ==> r.value < |d| && d[r.value].0 == k
    decreases |d|
  {
    if d == [] then None
    else if d[|d| - 1].0 == k then Some(|d| - 1)
    else IndexOfKey(d[..|d| - 1], k)
  }

  /** Python's `d[k] = v` on an insertion-ordered dict: an existing key keeps its place
      and takes the new value; a new key goes to the end. */
  function Insert(d: seq<(Key, Value)>, k: Key, v: Value): seq<(Key, Value)>
  {
    match IndexOfKey(d, k)
    case Some(t) => d[t := (k, v)]
    case None => d + [(k, v)]
  }

  /** `d = {}; for k, v in items: d[k] = v` */
  function BuildDict(entries: seq<(Key, Value)>): seq<(Key, Value)>
  {
    if entries == [] then []
    else
      var last := entries[|entries| - 1];
      Insert(BuildDict(entries[..|entries| - 1]), last.0, last.1)
  }

  /** The container decision after an array's pairs are read: a list exactly when the keys
      are `0..n-1` in order, otherwise a dict. */
  function Classify(entries: seq<(Key, Value)>): (v: Value)
    ensures v.List? <==> IsIndexSequence(entries)
    ensures v.List? ==> v.items == Values(entries)
    ensures v.Dict? ==> v.entries == BuildDict(entries)
  {
    if IsIndexSequence(entries) then List(Values(entries)) else Dict(BuildDict(entries))
  }

  /** The productions of `_parse_value` that hold no nested value. */
  function ParseScalar(b: Bytes, i: nat, tag: Tag, cfg: Config): (r: Result<Value>)
    requires i <= |b| && tag != ArrayTag
    requires tag != OtherTag ==> i + 2 <= |b|
    ensures r.Ok? ==> i < r.parsed.next <= |b|
    ensures r.Err? ==> r.error.pos <= |b|
  {
    match tag
    case StrTag =>
      (match ParseString(b, i + 2, cfg.lenient)
       case Err(e) => Err(e)
       case Ok(p) => Ok(Parsed(Str(cfg.decode(p.value)), p.next, p.notes)))
    case IntTag =>
      (match ParseInt(b, i + 2)
       case Err(e) => Err(e)
       case Ok(p) => Ok(Parsed(Int(p.value), p.next, p.notes)))
    case FloatTag =>
      (match ParseFloat(b, i + 2, cfg.isFloat)
       case Err(e) => Err(e)
       case Ok(p) => Ok(Parsed(Float(p.value), p.next, p.notes)))
    case BoolTag =>
      (match ParseBool(b, i + 2)
       case Err(e) => Err(e)
       case Ok(p) => Ok(Parsed(Bool(p.value), p.next, p.notes)))
    case NullTag => Ok(Parsed(Null, i + 2, []))
    case OtherTag => Err(ParseError(UnsupportedValueType, i))
  }

  /** `_parse_value` at offset `i`. */
  function ParseValue(b: Bytes, i: nat, cfg: Config): (r: Result<Value>)
    requires i <= |b|
    ensures r.Ok? ==> i < r.parsed.next <= |b|
    ensures r.Err? ==> r.error.pos <= |b|
    decreases |b| - i, 1
  {
    var tag := TagAt(b, i);
    if tag == ArrayTag then ParseArray(b, i + 2, cfg) else ParseScalar(b, i, tag, cfg)
  }

  /** The head of the array production from the offset just after `a:`: `<count>:{`.
      The result is the count and the offset just past the `{`. */
  function ArrayHead(b: Bytes, i: nat): (r: Result<int>)
    requires i <= |b|
    ensures r.Ok? ==> i < r.parsed.next <= |b| && b[r.parsed.next - 1] == LBRACE && r.parsed.notes == []
    ensures r.Err? ==> r.error.pos <= |b|
  {
    match ReadUntil(b, i, COLON)
    case Err(e) => Err(e)
    case Ok(cp) =>
      match PyInt.ParseInt(cp.value)
      case None => Err(ParseError(InvalidArrayCount, cp.next))
      case Some(count) =>
        if !(cp.next < |b| && b[cp.next] == LBRACE) then Err(ParseError(ExpectedOpenBrace, cp.next))
        else Ok(Parsed(count, cp.next + 1, []))
  }

  /** The tail of the array production once the pairs are read: the `}` and the container. */
  function ArrayTail(b: Bytes, pairs: Parsed<seq<(Key, Value)>>): (r: Result<Value>)
    requires pairs.next <= |b|
    ensures r.Ok? ==> r.parsed.next == pairs.next + 1 && pairs.next < |b| && b[pairs.next] == RBRACE
    ensures r.Ok? ==> r.parsed.value == Classify(pairs.value) && r.parsed.notes == pairs.notes
    ensures r.Err? ==> r.error == ParseError(ExpectedCloseBrace, pairs.next)
  {
    if !(pairs.next < |b| && b[pairs.next] == RBRACE) then Err(ParseError(ExpectedCloseBrace, pairs.next))
    else Ok(Parsed(Classify(pairs.value), pairs.next + 1, pairs.notes))
  }

  /** The array production from the offset just after `a:`: `<count>:{`, the pairs, `}`. */
  function ParseArray(b: Bytes, i: nat, cfg: Config): (r: Result<Value>)
    requires i <= |b|
    ensures r.Ok? ==> i < r.parsed.next <= |b|
    ensures r.Err? ==> r.error.pos <= |b|
    decreases |b| - i, 0
  {
    match ArrayHead(b, i)
    case Err(e) => Err(e)
    case Ok(hp) =>
      match ParsePairs(b, hp.next, hp.value, cfg)
      case Err(e) => Err(e)
      case Ok(pp) => ArrayTail(b, pp)
  }

  /** One round of the `for _ in range(count)` loop: a key, then a value, from offset `j`. */
  function ParsePair(b: Bytes, j: nat, cfg: Config): (r: Result<(Key, Value)>)
    requires j <= |b|
    ensures r.Ok? ==> j < r.parsed.next <= |b|
    ensures r.Err? ==> r.error.pos <= |b|
    decreases |b| - j, 1
  {
    match ParseKey(b, j, cfg)
    case Err(e) => Err(e)
    case Ok(kp) =>
      match ParseValue(b, kp.next, cfg)
      case Err(e) => Err(e)
      case Ok(vp) => Ok(Parsed((kp.value, vp.value), vp.next, kp.notes + vp.notes))
  }

  /** The `for _ in range(count)` loop of the array production: `remaining` key/value
      pairs from offset `j`, with the notes they record in order. */
  function ParsePairs(b: Bytes, j: nat, remaining: int, cfg: Config): (r: Result<seq<(Key, Value)>>)
    requires j <= |b|
    ensures r.Ok? ==> j <= r.parsed.next <= |b|
    ensures r.Ok? ==> |r.parsed.value| == if remaining < 0 then 0 else remaining
    ensures r.Err? ==> r.error.pos <= |b|
    decreases |b| - j, 2
  {
    if remaining <= 0 then Ok(Parsed([], j, []))
    else
      match ParsePair(b, j, cfg)
      case Err(e) => Err(e)
      case Ok(pp) =>
        match ParsePairs(b, pp.next, remaining - 1, cfg)
        case Err(e) => Err(e)
        case Ok(rp) => Ok(Parsed([pp.value] + rp.value, rp.next, pp.notes + rp.notes))
  }

  /** `php_unserialize` on the encoded input: decode the root value at offset 0 (with a
      fresh note list) and note any non-whitespace bytes left after it. */
  function Unserialize(b: Bytes, cfg: Config): (r: Result<Value>)
    ensures r.Ok? ==> r.parsed.next <= |b|
    ensures r.Err? ==> r.error.pos <= |b|
  {
    match ParseValue(b, 0, cfg)
    case Err(e) => Err(e)
    case Ok(p) => Ok(WithTrailing(b, p))
  }

  /** The root value `p` with a `trailing_data` note added when `b[p.next:].strip()` is not empty. */
  function WithTrailing(b: Bytes, p: Parsed<Value>): (r: Parsed<Value>)
    requires p.next <= |b|
  {
    var trailing := if Strip(b[p.next..]) != [] then [TrailingData(p.next, |b| - p.next)] else [];
    Parsed(p.value, p.next, p.notes + trailing)
  }
}
