/**
 * The two Python string builtins the identifier normaliser and the output
 * rows depend on: `str.strip()` with no argument, and `str()` of a `bytes`
 * or `bytearray` value.
 */
module PyStr {

  import opened Wrappers

  type Byte = x: int | 0 <= x < 256

  /** Python's `str.isspace` for one character: the characters `str.strip()` removes. */
  predicate IsSpace(c: char)
  {
    ('\U{0009}' <= c <= '\U{000D}') || ('\U{001C}' <= c <= '\U{0020}') ||
    c == '\U{0085}' || c == '\U{00A0}' || c == '\U{1680}' ||
    ('\U{2000}' <= c <= '\U{200A}') || c == '\U{2028}' || c == '\U{2029}' ||
    c == '\U{202F}' || c == '\U{205F}' || c == '\U{3000}'
  }

  predicate AllSpace(s: string)
  {
    forall i :: 0 <= i < |s| ==> IsSpace(s[i])
  }

  /** Drops leading whitespace. */
  function TrimStart(s: string): string
  {
    if |s| > 0 && IsSpace(s[0]) then TrimStart(s[1..]) else s
  }

  /** Drops trailing whitespace. */
  function TrimEnd(s: string): string
  {
    if |s| > 0 && IsSpace(s[|s| - 1]) then TrimEnd(s[..|s| - 1]) else s
  }

  /** `TrimStart` leaves the longest suffix that does not start with a space, having dropped only spaces. */
  lemma {:induction false} TrimStartSpec(s: string)
    ensures |TrimStart(s)| <= |s| && TrimStart(s) == s[|s| - |TrimStart(s)|..]
    ensures AllSpace(s[..|s| - |TrimStart(s)|])
    ensures TrimStart(s) == [] || !IsSpace(TrimStart(s)[0])
  {
    if |s| > 0 && IsSpace(s[0]) {
      TrimStartSpec(s[1..]);
      var n := |s| - |TrimStart(s)|;
      assert s[..n] == [s[0]] + s[1..][..n - 1];
    }
  }

  /** `TrimEnd` leaves the longest prefix that does not end with a space, having dropped only spaces. */
  lemma {:induction false} TrimEndSpec(s: string)
    ensures |TrimEnd(s)| <= |s| && TrimEnd(s) == s[..|TrimEnd(s)|]
    ensures AllSpace(s[|TrimEnd(s)|..])
    ensures TrimEnd(s) == [] || !IsSpace(TrimEnd(s)[|TrimEnd(s)| - 1])
  {
    if |s| > 0 && IsSpace(s[|s| - 1]) {
      TrimEndSpec(s[..|s| - 1]);
      var n := |TrimEnd(s)|;
      assert s[n..] == s[..|s| - 1][n..] + [s[|s| - 1]];
    }
  }

  /** `s.strip()` */
  function Strip(s: string): string
  {
    TrimEnd(TrimStart(s))
  }

  lemma {:induction false} TrimStartAfterSpace(ws: string, x: string)
    requires AllSpace(ws)
    requires x == [] || !IsSpace(x[0])
    ensures TrimStart(ws + x) == x
    decreases |ws|
  {
    if ws == [] {
      assert ws + x == x;
    } else {
      assert (ws + x)[1..] == ws[1..] + x;
      TrimStartAfterSpace(ws[1..], x);
    }
  }

  lemma {:induction false} TrimEndBeforeSpace(x: string, ws: string)
    requires AllSpace(ws)
    requires x == [] || !IsSpace(x[|x| - 1])
    ensures TrimEnd(x + ws) == x
    decreases |ws|
  {
    if ws == [] {
      assert x + ws == x;
    } else {
      assert (x + ws)[..|x + ws| - 1] == x + ws[..|ws| - 1];
      TrimEndBeforeSpace(x, ws[..|ws| - 1]);
    }
  }

  /** Surrounding whitespace of any kind is exactly what `strip()` removes. */
  lemma StripSurrounded(ws1: string, x: string, ws2: string)
    requires AllSpace(ws1) && AllSpace(ws2)
    requires |x| > 0 && !IsSpace(x[0]) && !IsSpace(x[|x| - 1])
    ensures Strip(ws1 + x + ws2) == x
  {
    assert ws1 + x + ws2 == ws1 + (x + ws2);
    TrimStartAfterSpace(ws1, x + ws2);
    TrimEndBeforeSpace(x, ws2);
  }

  /** Lower-case hexadecimal digit for 0..15, as Python writes them in `\xhh` escapes and `hex()`. */
  function HexChar(d: nat): (c: char)
    requires d < 16
    ensures EscapeDigit(c) && EscapeDigitValue(c) == d
  {
    if d < 10 then (48 + d) as char else (87 + d) as char
  }

  /** The digits a `\xhh` escape is written with. */
  predicate EscapeDigit(c: char)
  {
    '0' <= c <= '9' || 'a' <= c <= 'f'
  }

  function EscapeDigitValue(c: char): nat
    requires EscapeDigit(c)
  {
    if c <= '9' then c as int - 48 else c as int - 87
  }

  /**
   * How `repr` writes one byte of a literal delimited by `quote`. A `bytearray`
   * repr (`escapeSingle`) escapes `'` even inside double quotes; a `bytes` repr
   * escapes only the delimiting quote.
   */
  function ReprByte(x: Byte, quote: char, escapeSingle: bool): (r: string)
    ensures 1 <= |r| <= 4
  {
    if x == quote as int || x == 92 || (escapeSingle && x == 39) then ['\\', x as char]
    else if x == 9 then "\\t"
    else if x == 10 then "\\n"
    else if x == 13 then "\\r"
    else if x < 32 || x >= 127 then ['\\', 'x', HexChar(x / 16), HexChar(x % 16)]
    else [x as char]
  }

  function ReprBody(b: seq<Byte>, quote: char, escapeSingle: bool): (r: string)
    ensures |b| <= |r| <= 4 * |b|
  {
    if b == [] then [] else ReprByte(b[0], quote, escapeSingle) + ReprBody(b[1..], quote, escapeSingle)
  }

  function Prepend(x: Byte, rest: Option<seq<Byte>>): Option<seq<Byte>>
  {
    if rest.Some? then Some([x] + rest.value) else None
  }

  /**
   * Reads the text between the quotes of a bytes literal back into bytes:
   * printable ASCII other than `\` stands for itself; `\t`, `\n`, `\r`,
   * `\xhh` and a backslash before `\`, `'` or `"` are escapes; anything
   * else is not something `repr` writes.
   */
  function UnescapeBody(s: string): Option<seq<Byte>>
    decreases |s|
  {
    if s == [] then Some([])
    else if s[0] != '\\' then
      if 32 <= s[0] as int < 127 then Prepend(s[0] as int, UnescapeBody(s[1..])) else None
    else if |s| < 2 then None
    else if s[1] == 't' then Prepend(9, UnescapeBody(s[2..]))
    else if s[1] == 'n' then Prepend(10, UnescapeBody(s[2..]))
    else if s[1] == 'r' then Prepend(13, UnescapeBody(s[2..]))
    else if s[1] == 'x' then
      if |s| >= 4 && EscapeDigit(s[2]) && EscapeDigit(s[3])
      then Prepend(16 * EscapeDigitValue(s[2]) + EscapeDigitValue(s[3]), UnescapeBody(s[4..]))
      else None
    else if s[1] == '\\' || s[1] == '\'' || s[1] == '"' then Prepend(s[1] as int, UnescapeBody(s[2..]))
    else None
  }

  /** Whatever text follows it, the escape of one byte reads back as that byte. */
  lemma UnescapeByte(x: Byte, quote: char, escapeSingle: bool, t: string)
    requires quote == '\'' || quote == '"'
    ensures UnescapeBody(ReprByte(x, quote, escapeSingle) + t) == Prepend(x, UnescapeBody(t))
  {
    var s := ReprByte(x, quote, escapeSingle) + t;
    if x == quote as int || x == 92 || (escapeSingle && x == 39) {
      assert s[2..] == t;
    } else if x == 9 || x == 10 || x == 13 {
      assert s[2..] == t;
    } else if x < 32 || x >= 127 {
      assert s[4..] == t;
    } else {
      assert s[1..] == t;
    }
  }

  /** The body of either repr reads back as the bytes it was written from. */
  lemma {:induction false} UnescapeReprBody(b: seq<Byte>, quote: char, escapeSingle: bool)
    requires quote == '\'' || quote == '"'
    ensures UnescapeBody(ReprBody(b, quote, escapeSingle)) == Some(b)
  {
    if b != [] {
      UnescapeReprBody(b[1..], quote, escapeSingle);
      UnescapeByte(b[0], quote, escapeSingle, ReprBody(b[1..], quote, escapeSingle));
      assert [b[0]] + b[1..] == b;
    }
  }

  /** Single quotes delimit the literal unless the bytes hold `'` and no `"`. */
  function ReprQuote(b: seq<Byte>): char
  {
    if 39 in b && 34 !in b then '"' else '\''
  }

  /** Reads a `bytes` repr `b'...'` or `b"..."` back into its bytes. */
  function ParseBytesRepr(s: string): Option<seq<Byte>>
  {
    if |s| >= 3 && s[0] == 'b' && (s[1] == '\'' || s[1] == '"') && s[|s| - 1] == s[1]
    then UnescapeBody(s[2..|s| - 1])
    else None
  }

  /** Reads a `bytearray` repr `bytearray(b'...')` back into its bytes. */
  function ParseByteArrayRepr(s: string): Option<seq<Byte>>
  {
    if |s| >= 14 && s[..11] == "bytearray(b" && (s[11] == '\'' || s[11] == '"')
       && s[|s| - 2] == s[11] && s[|s| - 1] == ')'
    then UnescapeBody(s[12..|s| - 2])
    else None
  }

  /** `str(b)` for a `bytes` value: `b'...'`, which reads back as `b`. */
  function BytesRepr(b: seq<Byte>): (r: string)
    ensures |b| + 3 <= |r| <= 4 * |b| + 3
    ensures r[0] == 'b' && r[1] == r[|r| - 1]
    ensures r[1] == '"' <==> (39 in b && 34 !in b)
    ensures r[1] == '"' || r[1] == '\''
    ensures ParseBytesRepr(r) == Some(b)
  {
    var quote := ReprQuote(b);
    var body := ReprBody(b, quote, false);
    var r := "b" + [quote] + body + [quote];
    UnescapeReprBody(b, quote, false);
    assert r[2..|r| - 1] == body;
    r
  }

  /** `str(a)` for a `bytearray` value: `bytearray(b'...')`, with every `'` escaped, which reads back as `a`. */
  function ByteArrayRepr(b: seq<Byte>): (r: string)
    ensures |b| + 14 <= |r| <= 4 * |b| + 14
    ensures r[..11] == "bytearray(b" && r[|r| - 1] == ')' && r[11] == r[|r| - 2]
    ensures r[11] == '"' <==> (39 in b && 34 !in b)
    ensures r[11] == '"' || r[11] == '\''
    ensures ParseByteArrayRepr(r) == Some(b)
  {
    var quote := ReprQuote(b);
    var body := ReprBody(b, quote, true);
    var r := "bytearray(b" + [quote] + body + [quote] + ")";
    UnescapeReprBody(b, quote, true);
    assert r[12..|r| - 2] == body;
    r
  }

  /** Different bytes never show as the same text, whether as `bytes` or as `bytearray`. */
  lemma ReprInjective(a: seq<Byte>, b: seq<Byte>)
    ensures BytesRepr(a) == BytesRepr(b) ==> a == b
    ensures ByteArrayRepr(a) == ByteArrayRepr(b) ==> a == b
    ensures BytesRepr(a) != ByteArrayRepr(b)
  {
  }

  /**
   * The two reprs part ways on a lone single quote: `bytes` writes `b"'"`,
   * `bytearray` writes `bytearray(b"\'")`.
   */
  lemma SingleQuoteRepr()
    ensures BytesRepr([39]) == "b\"'\""
    ensures ByteArrayRepr([39]) == "bytearray(b\"\\'\")"
  {
    var b: seq<Byte> := [39];
    assert ReprQuote(b) == '"';
    assert b[1..] == [];
    assert ReprBody(b, '"', false) == "'";
    assert ReprBody(b, '"', true) == "\\'";
  }
}
