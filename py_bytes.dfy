/** Python `bytes` values: the byte type, the ASCII constants the decoder compares against,
    `bytes.strip()`, decimal rendering, and `str.encode('utf-8')`. */
module PyBytes {
  import opened PySeq

  newtype byte = x: int | 0 <= x < 256

  type Bytes = seq<byte>

  const TAB: byte := 9
  const LF: byte := 10
  const VT: byte := 11
  const FF: byte := 12
  const CR: byte := 13
  const SPACE: byte := 32
  const QUOTE: byte := 34       // "
  const PLUS: byte := 43        // +
  const MINUS: byte := 45       // -
  const ZERO: byte := 48        // 0
  const ONE: byte := 49         // 1
  const COLON: byte := 58       // :
  const SEMICOLON: byte := 59   // ;
  const UPPER_N: byte := 78     // N
  const UNDERSCORE: byte := 95  // _
  const LOWER_A: byte := 97     // a
  const LOWER_B: byte := 98     // b
  const LOWER_D: byte := 100    // d
  const LOWER_I: byte := 105    // i
  const LOWER_S: byte := 115    // s
  const LBRACE: byte := 123     // {
  const RBRACE: byte := 125     // }

  /** CPython's `Py_ISSPACE`: the bytes `bytes.strip()` removes and `int()` skips. */
  predicate IsAsciiSpace(x: byte)
  {
    x == SPACE || (TAB <= x <= CR)
  }

  predicate IsDigit(x: byte) { ZERO <= x <= ZERO + 9 }

  /** `b.strip()` */
  function Strip(b: Bytes): (r: Bytes)
    ensures |r| <= |b|
    ensures r == [] <==> forall k | 0 <= k < |b| :: IsAsciiSpace(b[k])
    ensures r != [] ==> !IsAsciiSpace(r[0]) && !IsAsciiSpace(r[|r| - 1])
    ensures forall x | x in r :: x in b
  {
    if b != [] && IsAsciiSpace(b[0]) then Strip(b[1..])
    else if b != [] && IsAsciiSpace(b[|b| - 1]) then Strip(b[..|b| - 1])
    else b
  }

  /** `str(n).encode()` for a natural number. */
  function DecimalBytes(n: nat): (r: Bytes)
    ensures r != [] && forall x | x in r :: IsDigit(x)
  {
    if n < 10 then [ZERO + n as byte] else DecimalBytes(n / 10) + [ZERO + (n % 10) as byte]
  }

  /** `str(n).encode()` for any integer. */
  function IntBytes(n: int): (r: Bytes)
  {
    if n < 0 then [MINUS] + DecimalBytes(-n) else DecimalBytes(n)
  }

  /** UTF-8 encoding of one Unicode scalar value. */
  function Utf8Char(c: char): (r: Bytes)
    ensures 1 <= |r| <= 4
  {
    var v := c as int;
    if v < 0x80 then [v as byte]
    else if v < 0x800 then [(0xC0 + v / 0x40) as byte, (0x80 + v % 0x40) as byte]
    else if v < 0x1_0000 then
      [(0xE0 + v / 0x1000) as byte, (0x80 + (v / 0x40) % 0x40) as byte, (0x80 + v % 0x40) as byte]
    else
      [(0xF0 + v / 0x4_0000) as byte, (0x80 + (v / 0x1000) % 0x40) as byte,
       (0x80 + (v / 0x40) % 0x40) as byte, (0x80 + v % 0x40) as byte]
  }

  /** `s.encode('utf-8')`; a Dafny string holds no lone surrogates, so the
      `surrogatepass` error handler never applies. */
  function Utf8(s: string): (r: Bytes)
    ensures |s| <= |r| <= 4 * |s|
  {
    if s == [] then [] else Utf8Char(s[0]) + Utf8(s[1..])
  }
}
