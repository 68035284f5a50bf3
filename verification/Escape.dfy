/**
 * Character data: the printer's escaping (src/ixml/ixml.c:40-78) and the parser's inverse of it,
 * Parser_getChar and Parser_copyToken in strict mode (src/ixml/ixmlparser.c:1143-1283).
 */
module Escape {
  import opened CStrings
  import opened Utf8
  import opened XmlChars

  const QUOT: Bytes := [0x26, 0x71, 0x75, 0x6F, 0x74, 0x3B]  // &quot;
  const LT: Bytes := [0x26, 0x6C, 0x74, 0x3B]                // &lt;
  const GT: Bytes := [0x26, 0x67, 0x74, 0x3B]                // &gt;
  const APOS: Bytes := [0x26, 0x61, 0x70, 0x6F, 0x73, 0x3B]  // &apos;
  const AMP: Bytes := [0x26, 0x61, 0x6D, 0x70, 0x3B]         // &amp;
  const ESC_HEX: Bytes := [0x26, 0x23, 0x78]                 // &#x
  const ESC_DEC: Bytes := [0x26, 0x23]                       // &#

  /** One step of copy_with_escape. */
  function EscapeByte(b: Byte): (r: Bytes)
    ensures r != []
  {
    if b == 0x3C then LT
    else if b == 0x3E then GT
    else if b == 0x26 then AMP
    else if b == 0x27 then APOS
    else if b == 0x22 then QUOT
    else [b]
  }

  /** The bytes copy_with_escape appends for s. */
  function EscapeText(s: Bytes): Bytes {
    if s == [] then [] else EscapeByte(s[0]) + EscapeText(s[1..])
  }

  /** Signed 32-bit wrap-around of the `sum` accumulator of a numeric reference. */
  function Wrap32(x: int): int {
    (x + 0x8000_0000) % 0x1_0000_0000 - 0x8000_0000
  }

  predicate IsHexDigit(b: Byte) {
    0x30 <= b <= 0x39 || 0x41 <= b <= 0x46 || 0x61 <= b <= 0x66
  }

  predicate IsDecDigit(b: Byte) {
    0x30 <= b <= 0x39
  }

  function HexValue(b: Byte): int {
    if b <= 0x39 then b - 0x30 else if b <= 0x46 then b - 0x41 + 10 else b - 0x61 + 10
  }

  /** The digit loops: the accumulated value and the number of digits read. */
  function HexRun(s: Bytes, sum: int): (r: (int, nat))
    ensures r.1 <= |s|
  {
    if s != [] && IsHexDigit(s[0]) then
      var (v, n) := HexRun(s[1..], Wrap32(sum * 16 + HexValue(s[0])));
      (v, n + 1)
    else (sum, 0)
  }

  function DecRun(s: Bytes, sum: int): (r: (int, nat))
    ensures r.1 <= |s|
  {
    if s != [] && IsDecDigit(s[0]) then
      var (v, n) := DecRun(s[1..], Wrap32(sum * 10 + (s[0] - 0x30)));
      (v, n + 1)
    else (sum, 0)
  }

  /** The tail of both numeric cases: a terminating ';' and a value in the Char production. */
  function NumericReference(src: Bytes, start: nat, run: (int, nat)): (r: (int, nat))
    requires 2 <= start && start + run.1 <= |src|
    ensures r.0 > 0 ==> 1 < r.1 <= |src|
    ensures r.0 == -1 || IsXmlChar(r.0)
  {
    var p := start + run.1;
    if At(src, p) != 0x3B || !IsXmlChar(run.0) then (-1, 0)
    else (run.0, p + 1)
  }

  /** Parser_getChar: the next character and the number of bytes it takes, or a value -1. */
  function GetChar(src: Bytes): (r: (int, nat))
    ensures r.0 > 0 ==> 1 <= r.1 <= |src| && IsXmlChar(r.0) && (r.1 == 1 ==> r.0 < 0x80)
  {
    var b := At(src, 0);
    if b != 0x26 then
      if 0 < b < 0x80 && IsXmlChar(b) then (b, 1)
      else
        var (c, n) := Utf8ToInt(src);
        if !IsXmlChar(c) then (-1, n) else (c, n)
    else if StartsWithNoCase(src, QUOT) then (0x22, 6)
    else if StartsWithNoCase(src, LT) then (0x3C, 4)
    else if StartsWithNoCase(src, GT) then (0x3E, 4)
    else if StartsWithNoCase(src, APOS) then (0x27, 6)
    else if StartsWithNoCase(src, AMP) then (0x26, 5)
    else if StartsWithNoCase(src, ESC_HEX) then NumericReference(src, 3, HexRun(src[3..], 0))
    else if StartsWithNoCase(src, ESC_DEC) then NumericReference(src, 2, DecRun(src[2..], 0))
    else (-1, 0)
  }

  /**
   * The loop of Parser_copyToken over the next `len` bytes of src: whether it ended with success,
   * and what it appended to the token buffer (also when it failed half-way).
   */
  function CopyLoop(src: Bytes, len: int): (r: (bool, Bytes))
    decreases |src|
  {
    if len <= 0 then (len == 0, [])
    else
      var (c, n) := GetChar(src);
      if c <= 0 then (false, [])
      else
        var (ok, out) := CopyLoop(src[n..], len - n);
        (ok, (if n == 1 then [c] else IntToUtf8(c)) + out)
  }

  /** Parser_copyToken */
  function CopyToken(src: Bytes, len: int): (bool, Bytes) {
    if len <= 0 then (false, []) else CopyLoop(src, len)
  }

  /** Shortest-form UTF-8 of characters in the Char production of XML. */
  predicate WellFormed(s: Bytes)
    decreases |s|
  {
    s == [] ||
    var (c, n) := Utf8ToInt(s);
    IsXmlChar(c) && IntToUtf8(c) == s[..n] && WellFormed(s[n..])
  }

  /** Bytes above ASCII are copied by the escaper. */
  lemma {:induction false} EscapeHigh(h: Bytes, t: Bytes)
    requires forall i | 0 <= i < |h| :: h[i] >= 0x80
    ensures EscapeText(h + t) == h + EscapeText(t)
  {
    hide EscapeText;
    if h == [] {
      assert h + t == t && h + EscapeText(t) == EscapeText(t);
    } else {
      EscapeUnfold(h + t);
      assert (h + t)[1..] == h[1..] + t;
      EscapeHigh(h[1..], t);
      HeadAppend(h, EscapeText(t));
    }
  }

  lemma HeadAppend(h: Bytes, t: Bytes)
    requires h != []
    ensures [h[0]] + (h[1..] + t) == h + t
  {
  }

  lemma EscapeUnfold(s: Bytes)
    requires s != []
    ensures EscapeText(s) == EscapeByte(s[0]) + EscapeText(s[1..])
  {
  }

  /** Reading back one escaped ASCII character. */
  lemma GetCharEscaped(b: Byte, t: Bytes)
    requires 0 < b < 0x80 && IsXmlChar(b)
    ensures GetChar(EscapeByte(b) + t) == (b, |EscapeByte(b)|)
  {
    var e := EscapeByte(b);
    var s := e + t;
    assert s[..|e|] == e;
    assert forall i | 0 <= i < |e| :: s[i] == e[i];
    if b == 0x3C {
      assert s[1] == 0x6C;
    } else if b == 0x3E {
      assert s[1] == 0x67;
    } else if b == 0x26 {
      assert s[1] == 0x61 && s[2] == 0x6D;
    } else if b == 0x27 {
      assert s[1] == 0x61 && s[2] == 0x70;
    }
  }

  /** A value of two or more octets is encoded in bytes above ASCII only. */
  lemma EncodedHigh(c: int)
    requires |IntToUtf8(c)| > 1
    ensures forall i | 0 <= i < |IntToUtf8(c)| :: IntToUtf8(c)[i] >= 0x80
  {
  }

  /** One character read from the front of the source. */
  lemma CopyStep(e: Bytes, c: int, rest: Bytes, t: Bytes, out: Bytes)
    requires GetChar(e + (rest + t)) == (c, |e|) && e != [] && c > 0
    requires CopyLoop(rest + t, |rest|) == (true, out)
    ensures CopyLoop((e + rest) + t, |e + rest|) == (true, IntToUtf8(c) + out)
  {
    hide GetChar, IntToUtf8;
    assert (e + rest) + t == e + (rest + t);
    assert (e + (rest + t))[|e|..] == rest + t;
    if |e| == 1 {
      Single(c);
    }
  }

  lemma Single(c: int)
    requires 0 <= c < 0x80
    ensures IntToUtf8(c) == [c]
  {
  }

  /** An unescaped character of two or more octets is read back by the decoder. */
  lemma GetCharHigh(c: int, t: Bytes)
    requires IsXmlChar(c) && |IntToUtf8(c)| > 1
    ensures GetChar(IntToUtf8(c) + t) == (c, |IntToUtf8(c)|)
  {
    EncodedHigh(c);
    DecodeEncode(c, t);
    assert (IntToUtf8(c) + t)[0] >= 0x80;
  }

  /** The parser's copy undoes the printer's escape, whatever follows the text. */
  lemma {:induction false} CopyEscaped(s: Bytes, t: Bytes)
    requires WellFormed(s)
    ensures CopyLoop(EscapeText(s) + t, |EscapeText(s)|) == (true, s)
    decreases |s|
  {
    if s != [] {
      var (c, n) := Utf8ToInt(s);
      var rest := EscapeText(s[n..]);
      CopyEscaped(s[n..], t);
      assert s == s[..n] + s[n..];
      if n == 1 {
        assert IntToUtf8(c) == [s[0]];
        GetCharEscaped(s[0], rest + t);
        CopyStep(EscapeByte(s[0]), c, rest, t, s[1..]);
      } else {
        EncodedHigh(c);
        EscapeHigh(s[..n], s[n..]);
        GetCharHigh(c, rest + t);
        CopyStep(s[..n], c, rest, t, s[n..]);
      }
    }
  }

  /** copy_with_escape followed by Parser_copyToken is the identity on non-empty well-formed text. */
  lemma EscapeRoundTrip(s: Bytes)
    requires WellFormed(s) && s != []
    ensures CopyToken(EscapeText(s), |EscapeText(s)|) == (true, s)
  {
    CopyEscaped(s, []);
    assert EscapeText(s) + [] == EscapeText(s);
  }

  /** The characters that delimit markup never occur in escaped text. */
  lemma {:induction false} EscapedHasNoMarkup(s: Bytes)
    ensures forall i | 0 <= i < |EscapeText(s)| :: EscapeText(s)[i] !in {0x3C, 0x3E, 0x27, 0x22}
    ensures (forall i | 0 <= i < |s| :: s[i] != 0) ==> forall i | 0 <= i < |EscapeText(s)| :: EscapeText(s)[i] != 0
  {
    if s != [] {
      EscapedHasNoMarkup(s[1..]);
    }
  }

  /** Escaping is injective: printed text determines the text. */
  lemma EscapeInjective(s: Bytes, t: Bytes)
    requires WellFormed(s) && WellFormed(t) && EscapeText(s) == EscapeText(t)
    ensures s == t
  {
    CopyEscaped(s, []);
    CopyEscaped(t, []);
  }
}
