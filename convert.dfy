/** The Convert button of the converter window (`on_convert`, php_to_json.py) and the
    diagnostic text it builds around a parse error (`_context_around_byte`). The widgets,
    the JSON printer and the library decoders are left out or passed in as functions. */
module Convert {
  import opened PySeq
  import PyBytes
  import opened PyText
  import opened PhpGrammar
  import PhpDecoder
  import ShellCleanup
  import JsonExtract

  /** The two check boxes the conversion reads: "cleanup" and "lenient". */
  datatype Options = Options(cleanup: bool, lenient: bool)

  /** The library routines: the JSON ones of the extraction; for the decoder, whether
      `float()` accepts a literal and `_decode_bytes`; for the diagnostic,
      `bytes.decode("utf-8", errors="replace")` and `errors="ignore"`. */
  datatype Tools = Tools(
    json: JsonExtract.JsonTools,
    isFloat: PyBytes.Bytes -> bool,
    decode: PyBytes.Bytes -> string,
    decodeReplace: PyBytes.Bytes -> string,
    decodeIgnore: PyBytes.Bytes -> string)

  /** What a press of the button leaves in the output pane and the status bar. */
  datatype Outcome =
    | InputEmpty                                  // "Input is empty."
    | EmbeddedJson(json: string)                  // "Found embedded JSON and formatted it."
    | Converted(value: Value, notes: seq<Note>)   // "Converted successfully." or "... with n note(s)."
    | InputWasJson(json: string)                  // "Input was JSON. Pretty-printed."
    | JsonError(rejected: string)                 // {"error": str(e)} for json.loads(rejected)
    | ParseErrorReport(error: ParseError, context: string)  // {"error", "byte_pos", "context"}

  /** The stages the button chains, each a function of the text it is given: the shell
      clean-up, the search for embedded JSON, `php_unserialize` under the leniency
      switch, the `json.loads`/`json.dumps` round trip of the fallback, and the
      diagnostic around a failing byte. */
  datatype Stages = Stages(
    clean: string -> string,
    find: string -> Option<string>,
    unserialize: (string, bool) -> Result<Value>,
    roundTrip: string -> Option<string>,
    context: (string, nat) -> string)

  /** The stages of this model, given the library routines they rely on. The clean-up is
      the in-place restore of `ShellCleanup.CleanShell`. */
  function StagesOf(tools: Tools): Stages
  {
    Stages(
      s => ShellCleanup.CleanShell(s, tools.json.unescape),
      s => JsonExtract.FindJson(s, tools.json),
      (s: string, lenient: bool) => Unserialize(PyBytes.Utf8(s), Config(lenient, tools.isFloat, tools.decode)),
      tools.json.roundTrip,
      (s: string, pos: nat) => ContextAroundByte(s, pos, tools))
  }

  /** The text the decoder sees: the stripped input, cleaned up when asked to. */
  function Cleaned(raw: string, opts: Options, st: Stages): string
  {
    if opts.cleanup then st.clean(raw) else raw
  }

  /** The embedded JSON looked for before decoding, only when cleaning up. */
  function Embedded(text: string, opts: Options, st: Stages): Option<string>
  {
    if opts.cleanup then st.find(text) else None
  }

  /** The handler of a `ParseError`: the text, once its leading noise is gone, read as
      JSON; when `json.loads` refuses it, its exception is what is reported. */
  function JsonFallback(text: string, st: Stages): (r: Outcome)
    ensures r.InputWasJson? || r.JsonError?
    ensures r.JsonError? <==> st.roundTrip(JsonExtract.StripLeadingNoise(text)).None?
  {
    var t := JsonExtract.StripLeadingNoise(text);
    match st.roundTrip(t)
    case Some(j) => InputWasJson(j)
    case None => JsonError(t)
  }

  /** The conversion through the given stages, with `reportParseError` choosing what
      happens when the decoder and the JSON fallback both fail: false is the code as
      written (the JSON exception is re-raised past the parse-error handler), true is
      the parse-error report. */
  function Run(input: string, opts: Options, st: Stages, reportParseError: bool): (r: Outcome)
    ensures r.InputEmpty? <==> Strip(input) == []
    ensures r.EmbeddedJson? ==> opts.cleanup
    ensures r.ParseErrorReport? ==> reportParseError
  {
    var raw := Strip(input);
    if raw == [] then InputEmpty
    else
      var text := Cleaned(raw, opts, st);
      match Embedded(text, opts, st)
      case Some(j) => EmbeddedJson(j)
      case None =>
        match st.unserialize(text, opts.lenient)
        case Ok(p) => Converted(p.value, p.notes)
        case Err(e) =>
          var fallback := JsonFallback(text, st);
          if reportParseError && fallback.JsonError?
          then ParseErrorReport(e, st.context(text, e.pos))
          else fallback
  }

  /** `on_convert` as written, except that its clean-up stage puts each token back into
      its own slot (`ShellCleanup.CleanShell`); `safe_cleanup_shell_only` computes the
      same text whenever `ShellCleanup.SafeCleanupAgrees` applies. */
  function Convert(input: string, opts: Options, tools: Tools): (r: Outcome)
    ensures !r.ParseErrorReport?
  {
    Run(input, opts, StagesOf(tools), false)
  }

  /** `on_convert` as its parse-error handler means it to behave. */
  function ConvertIntended(input: string, opts: Options, tools: Tools): (r: Outcome)
    ensures r.InputEmpty? <==> Strip(input) == []
    ensures r.EmbeddedJson? ==> opts.cleanup
  {
    Run(input, opts, StagesOf(tools), true)
  }

  method OnConvert(input: string, opts: Options, tools: Tools) returns (r: Outcome)
    ensures r == Convert(input, opts, tools)
  {
    var raw := Strip(input);
    if raw == [] {
      return InputEmpty;
    }
    if opts.cleanup {
      raw := ShellCleanup.CleanShell(raw, tools.json.unescape);
      var j := JsonExtract.TidyTextAndFindJson(raw, tools.json);
      if j.Some? {
        return EmbeddedJson(j.value);
      }
    }
    var res := PhpDecoder.PhpUnserialize(raw, Config(opts.lenient, tools.isFloat, tools.decode));
    if res.Ok? {
      return Converted(res.parsed.value, res.parsed.notes);
    }
    r := JsonFallback(raw, StagesOf(tools));
  }

  // ---------------------------------------------------------------------------------
  // Properties of the conversion, whatever its stages compute
  // ---------------------------------------------------------------------------------

  /** When the clean-up finds embedded JSON, the decoder is never called: neither the
      decoder nor the leniency switch changes the outcome. */
  lemma EmbeddedJsonSkipsDecoder(input: string, opts: Options, st: Stages, report: bool,
                                 other: (string, bool) -> Result<Value>, lenient: bool)
    requires opts.cleanup && Strip(input) != []
    requires st.find(st.clean(Strip(input))).Some?
    ensures Run(input, opts, st, report) == EmbeddedJson(st.find(st.clean(Strip(input))).value)
    ensures Run(input, opts, st, report) == Run(input, opts.(lenient := lenient), st.(unserialize := other), report)
  {
  }

  /** As written, the parse-error report is unreachable: every outcome is one of the
      other five. */
  lemma ConvertNeverReportsParseError(input: string, opts: Options, st: Stages)
    ensures !Run(input, opts, st, false).ParseErrorReport?
  {
  }

  /** When the decoder and the JSON fallback both fail, the code as written reports the
      JSON error on the noise-stripped text, and the intended handler reports the parse
      error with the context around its byte. */
  lemma BothFail(input: string, opts: Options, st: Stages)
    requires Strip(input) != []
    requires var text := Cleaned(Strip(input), opts, st);
      && Embedded(text, opts, st).None?
      && st.unserialize(text, opts.lenient).Err?
      && st.roundTrip(JsonExtract.StripLeadingNoise(text)).None?
    ensures var text := Cleaned(Strip(input), opts, st);
      var e := st.unserialize(text, opts.lenient).error;
      && Run(input, opts, st, false) == JsonError(JsonExtract.StripLeadingNoise(text))
      && Run(input, opts, st, true) == ParseErrorReport(e, st.context(text, e.pos))
  {
  }

  /** The intended conversion reports a parse error exactly when the input is not empty,
      holds no embedded JSON the clean-up finds, fails to decode, and is not JSON either;
      everywhere else it agrees with the code as written. */
  lemma ConvertIntendedDiffers(input: string, opts: Options, st: Stages)
    ensures var text := Cleaned(Strip(input), opts, st);
      Run(input, opts, st, true).ParseErrorReport?
      <==> (&& Strip(input) != []
            && Embedded(text, opts, st).None?
            && st.unserialize(text, opts.lenient).Err?
            && st.roundTrip(JsonExtract.StripLeadingNoise(text)).None?)
    ensures !Run(input, opts, st, true).ParseErrorReport?
            ==> Run(input, opts, st, true) == Run(input, opts, st, false)
  {
  }

  // ---------------------------------------------------------------------------------
  // A sample of the unreachable report
  // ---------------------------------------------------------------------------------

  /** Library routines under which no text is JSON. */
  function NoJsonTools(): Tools
  {
    Tools(JsonExtract.JsonTools(s => s, s => None, s => s, s => s),
          b => false, b => [], b => [], b => [])
  }

  /** A decode of `x` fails at its first byte: no value starts with `x`. */
  lemma SampleDoesNotDecode(cfg: Config)
    ensures Unserialize(PyBytes.Utf8("x"), cfg).Err?
  {
    assert PyBytes.Utf8("x") == PyBytes.Utf8Char('x') + PyBytes.Utf8([]);
  }

  /** The sample through the stages of this model: it does not decode and is not JSON. */
  lemma SampleStages()
    ensures StagesOf(NoJsonTools()).unserialize("x", false).Err?
    ensures StagesOf(NoJsonTools()).roundTrip("x").None?
  {
    var tools := NoJsonTools();
    SampleDoesNotDecode(Config(false, tools.isFloat, tools.decode));
  }

  /** The sample has nothing to strip. */
  lemma SampleText()
    ensures Strip("x") == "x"
    ensures JsonExtract.StripLeadingNoise("x") == "x"
  {
    assert Strip("x") == "x";
  }

  /** The input `x`, without clean-up, under stages that fail to decode it and do not
      read it as JSON (the stages of this model are such stages, by `SampleStages`):
      the button shows the JSON error although the PHP decoder failed first, while the
      intended handler reports the parse error. */
  lemma ParseErrorReportUnreachable(st: Stages)
    requires st.unserialize("x", false).Err? && st.roundTrip("x").None?
    ensures Run("x", Options(false, false), st, false) == JsonError("x")
    ensures Run("x", Options(false, false), st, true).ParseErrorReport?
  {
    SampleText();
    BothFail("x", Options(false, false), st);
  }

  // ---------------------------------------------------------------------------------
  // _context_around_byte
  // ---------------------------------------------------------------------------------

  /** How many bytes the diagnostic shows on either side of the error. */
  const RADIUS: nat := 24

  /** The marker under the error position. */
  const MARKER: char := '\U{25B2}'

  function Min(a: int, b: int): int { if a <= b then a else b }

  function WindowStart(pos: nat): nat
  {
    if pos >= RADIUS then pos - RADIUS else 0
  }

  /** `b[max(0, pos - radius):min(len(b), pos + radius)]` */
  function Window(b: PyBytes.Bytes, pos: nat): PyBytes.Bytes
  {
    var end := if |b| <= pos + RADIUS then |b| else pos + RADIUS;
    PySlice(b, WindowStart(pos), end)
  }

  /** The window holds at most `2 * RADIUS` bytes; around a position inside the text it
      is the `RADIUS` bytes before the position (fewer at the start) followed by the
      `RADIUS` bytes from it on (fewer at the end). */
  lemma WindowAround(b: PyBytes.Bytes, pos: nat)
    ensures |Window(b, pos)| <= 2 * RADIUS
    ensures pos <= |b| ==>
      var before, after := Min(pos, RADIUS), Min(|b| - pos, RADIUS);
      Window(b, pos) == b[pos - before..pos + after]
  {
    var start := WindowStart(pos);
    var end := if |b| <= pos + RADIUS then |b| else pos + RADIUS;
    assert Window(b, pos) == PySlice(b, start, end);
    if start <= end {
      assert |Window(b, pos)| <= end - start;
    } else {
      assert Window(b, pos) == [];
    }
    if pos <= |b| {
      assert start == pos - Min(pos, RADIUS);
      assert end == pos + Min(|b| - pos, RADIUS);
      assert Window(b, pos) == b[start..end];
    }
  }

  function Spaces(n: nat): (r: string)
    ensures |r| == n && forall i | 0 <= i < n :: r[i] == ' '
  {
    seq(n, _ => ' ')
  }

  /** The column of the marker: the characters decoded from the window's bytes before
      the error position. */
  function MarkerColumn(raw: string, pos: nat, tools: Tools): nat
  {
    |tools.decodeIgnore(PySlice(PyBytes.Utf8(raw), WindowStart(pos), pos))|
  }

  /** `_context_around_byte(raw, pos)`: the window decoded between two ellipses, then a
      line that puts the marker under the error position. */
  function ContextAroundByte(raw: string, pos: nat, tools: Tools): (r: string)
    ensures var k := MarkerColumn(raw, pos, tools);
      && |r| >= k + 5
      && r[..3] == "..."
      && r[|r| - 1] == MARKER
      && r[|r| - k - 2] == '\n'
      && forall i | |r| - k - 1 <= i < |r| - 1 :: r[i] == ' '
  {
    var b := PyBytes.Utf8(raw);
    var snippet := tools.decodeReplace(Window(b, pos));
    "..." + snippet + "...\n" + Spaces(MarkerColumn(raw, pos, tools)) + [MARKER]
  }
}
