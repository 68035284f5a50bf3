/**
 * How the token reader sees printed markup: names, punctuation and tag openers are read back
 * exactly, and what follows them is left for the next token.
 */
module TokenLemmas {
  import opened CStrings
  import opened Utf8
  import opened XmlChars
  import opened Escape
  import opened Lexer

  /** Shortest-form UTF-8 of characters a name can go on with. */
  predicate NameTail(n: Bytes)
    decreases |n|
  {
    n == [] ||
    var (c, k) := Utf8ToInt(n);
    IsNameChar(c, true) && IntToUtf8(c) == n[..k] && NameTail(n[k..])
  }

  /** Shortest-form UTF-8 of a name: a start character and then name characters. */
  predicate ValidName(n: Bytes) {
    n != [] &&
    var (c, k) := Utf8ToInt(n);
    IsNameChar(c, false) && IntToUtf8(c) == n[..k] && NameTail(n[k..])
  }

  /** An ASCII byte that ends a name. */
  predicate EndsName(s: Bytes) {
    s != [] && s[0] in {0x09, 0x0A, 0x0D, 0x20, 0x22, 0x27, 0x2F, 0x3C, 0x3D, 0x3E}
  }

  lemma EndsNameIsNoNameChar(s: Bytes)
    requires EndsName(s)
    ensures !IsNameChar(Utf8ToInt(s).0, true)
  {
    AsciiNameChars(s[0]);
  }

  /** A name begins with a letter, `_`, `:` or a byte above ASCII. */
  lemma NameFirstByte(n: Bytes)
    requires ValidName(n)
    ensures n != []
    ensures n[0] >= 0x80 || n[0] == 0x3A || 0x41 <= n[0] <= 0x5A || n[0] == 0x5F || 0x61 <= n[0] <= 0x7A
  {
    if n[0] < 0x80 {
      AsciiNameChars(n[0]);
    }
  }

  /** Bytes of a name tail are never the ones the escaper changes. */
  lemma {:induction false} NameTailWellFormed(n: Bytes)
    requires NameTail(n)
    ensures WellFormed(n) && EscapeText(n) == n
    decreases |n|
  {
    if n != [] {
      NameTailWellFormed(n[Utf8ToInt(n).1..]);
      OneChar(n, true);
    }
  }

  /** One name character in front of well-formed text that needs no escape. */
  lemma OneChar(n: Bytes, b: bool)
    requires n != [] && IsNameChar(Utf8ToInt(n).0, b) && IntToUtf8(Utf8ToInt(n).0) == n[..Utf8ToInt(n).1]
    requires WellFormed(n[Utf8ToInt(n).1..])
    requires EscapeText(n[Utf8ToInt(n).1..]) == n[Utf8ToInt(n).1..]
    ensures WellFormed(n) && EscapeText(n) == n
  {
    hide IsNameChar, EscapeText, IntToUtf8;
    var (c, k) := Utf8ToInt(n);
    assert n == n[..k] + n[k..];
    if k == 1 {
      AsciiChar(n, b);
    } else {
      EncodedHigh(c);
      EscapeHigh(n[..k], n[k..]);
    }
  }

  lemma AsciiChar(n: Bytes, b: bool)
    requires n != [] && Utf8ToInt(n).1 == 1 && IsNameChar(Utf8ToInt(n).0, b) && EscapeText(n[1..]) == n[1..]
    ensures EscapeText(n) == n
  {
    hide IsNameChar, EscapeByte;
    AsciiEscape(Utf8ToInt(n).0, b);
    assert n == [n[0]] + n[1..];
  }

  lemma AsciiEscape(c: int, b: bool)
    requires 0 <= c < 0x80 && IsNameChar(c, b)
    ensures EscapeByte(c) == [c]
  {
    AsciiNameChars(c);
  }

  lemma NameWellFormed(n: Bytes)
    requires ValidName(n)
    ensures WellFormed(n) && EscapeText(n) == n
  {
    hide IsNameChar;
    NameTailWellFormed(n[Utf8ToInt(n).1..]);
    OneChar(n, false);
  }

  /** A name is copied to the token buffer unchanged. */
  lemma NameCopies(n: Bytes, r: Bytes)
    requires ValidName(n)
    ensures CopyToken(n + r, |n|) == (true, n)
  {
    hide IsNameChar, GetChar, Utf8ToInt;
    NameWellFormed(n);
    CopyEscaped(n, r);
  }

  /** The name loop stops exactly behind the name. */
  lemma {:induction false} NameRunStops(n: Bytes, r: Bytes)
    requires NameTail(n) && EndsName(r)
    ensures NameRun(n + r) == |n|
    decreases |n|
  {
    hide IsNameChar, Utf8ToInt;
    if n == [] {
      assert n + r == r;
      EndsNameIsNoNameChar(r);
    } else {
      var (c, k) := Utf8ToInt(n);
      DecodeLocal(n, r);
      assert (n + r)[k..] == n[k..] + r;
      NameRunStops(n[k..], r);
    }
  }

  lemma NameLength(n: Bytes, r: Bytes)
    requires ValidName(n) && EndsName(r)
    ensures TokenLength(n + r) == Some(|n|)
  {
    hide IsNameChar, Utf8ToInt, NameRun, ValidName;
    NameRunStarts(n, r);
    NameFirstByte(n);
    assert At(n + r, 0) == n[0];
  }

  lemma NameRunStarts(n: Bytes, r: Bytes)
    requires ValidName(n) && EndsName(r)
    ensures var (c, k) := Utf8ToInt(n + r);
            IsNameChar(c, false) && k <= |n + r| && k + NameRun((n + r)[k..]) == |n|
  {
    hide IsNameChar, Utf8ToInt;
    var k := Utf8ToInt(n).1;
    DecodeLocal(n, r);
    assert (n + r)[k..] == n[k..] + r;
    NameRunStops(n[k..], r);
  }

  /** Nothing is skipped before a byte that is neither white space nor `<`. */
  lemma NoMisc(s: Bytes)
    requires s != [] && s[0] != 0x3C && !IsWhite(s[0])
    ensures SkipMisc(s) == (true, s)
  {
  }

  /** A tag opener is not mistaken for a comment or a processing instruction. */
  lemma NoMiscTag(s: Bytes)
    requires |s| > 1 && s[0] == 0x3C && s[1] != 0x21 && s[1] != 0x3F
    ensures SkipMisc(s) == (true, s)
  {
  }

  lemma NameToken(n: Bytes, r: Bytes)
    requires ValidName(n) && EndsName(r)
    ensures GetNextToken(n + r) == Token(|n|, n, r, None)
  {
    hide IsNameChar, CopyToken, ValidName, TokenLength, SkipMisc;
    NameFirstByte(n);
    assert (n + r)[0] == n[0];
    NoMisc(n + r);
    NameLength(n, r);
    NameCopies(n, r);
    assert (n + r)[|n|..] == r;
  }

  /** `=`, quotes and `>` are tokens of their own. */
  lemma PunctToken(b: Byte, r: Bytes)
    requires b in {0x3D, 0x22, 0x27, 0x3E}
    ensures GetNextToken([b] + r) == Token(1, [b], r, None)
  {
    hide IsNameChar, SkipMisc, CopyToken, Utf8ToInt;
    var s := [b] + r;
    NoMisc(s);
    AsciiCopies(s, 1);
    assert s[..1] == [b] && s[1..] == r;
  }

  /** One space is skipped as white space, and nothing behind it. */
  lemma SkipSpace(s: Bytes)
    requires s != [] && s[0] != 0x3C && !IsWhite(s[0])
    ensures SkipWhite([0x20] + s) == s && SkipMisc([0x20] + s) == (true, s)
  {
    var t := [0x20] + s;
    assert t[1..] == s;
    assert SkipWhite(s) == s;
  }

  /** One space before a name is skipped. */
  lemma SpacedNameToken(n: Bytes, r: Bytes)
    requires ValidName(n) && EndsName(r)
    ensures GetNextToken([0x20] + (n + r)) == Token(|n|, n, r, None)
    ensures SkipWhite([0x20] + (n + r)) == n + r
  {
    hide IsNameChar, CopyToken, ValidName, TokenLength, SkipMisc;
    NameFirstByte(n);
    NameLength(n, r);
    assert (n + r)[0] == n[0];
    SkipSpace(n + r);
    NameCopies(n, r);
    assert (n + r)[|n|..] == r;
  }

  /** `<` in front of a name. */
  lemma OpenToken(n: Bytes, r: Bytes)
    requires ValidName(n)
    ensures GetNextToken([0x3C] + (n + r)) == Token(1, [0x3C], n + r, None)
  {
    hide IsNameChar, CopyToken, SkipMisc, Utf8ToInt;
    var s := [0x3C] + (n + r);
    NameFirstByte(n);
    assert s[1] == n[0];
    NoMiscTag(s);
    assert s[1..] == n + r;
    DecodeLocal(n, r);
    assert IsNameChar(Utf8ToInt(n).0, false);
    assert Utf8ToInt(s[1..]).0 != 0x2F by {
      AsciiNameChars(0x2F);
    }
    AsciiCopies(s, 1);
    assert s[..1] == [0x3C];
  }

  /** `</` */
  lemma CloseToken(r: Bytes)
    ensures GetNextToken(ENDTAG + r) == Token(2, ENDTAG, r, None)
  {
    hide IsNameChar, CopyToken, SkipMisc;
    var s := ENDTAG + r;
    NoMiscTag(s);
    assert At(s[1..], 0) == 0x2F;
    AsciiCopies(s, 2);
    assert s[..2] == ENDTAG && s[2..] == r;
  }

  /** A token can begin here: no white space, and no comment or processing instruction. */
  predicate StartsToken(s: Bytes) {
    s != [] && !IsWhite(s[0]) && (s[0] == 0x3C ==> |s| > 1 && s[1] != 0x21 && s[1] != 0x3F)
  }

  /** White space in front of a token is skipped. */
  lemma GapSkipped(w: Bytes, s: Bytes)
    requires AllWhite(w) && StartsToken(s)
    ensures SkipWhite(w + s) == s && SkipMisc(w + s) == (true, s)
  {
    SkipWhiteRun(w, s);
    if w == [] {
      assert w + s == s;
    } else {
      assert (w + s)[0] == w[0];
    }
  }

  lemma GapToken(w: Bytes, s: Bytes)
    requires AllWhite(w) && StartsToken(s)
    ensures GetNextToken(w + s) == GetNextToken(s)
  {
    hide SkipMisc, SkipWhite, TokenLength, CopyToken;
    GapSkipped(w, s);
    GapSkipped([], s);
    assert [] + s == s;
  }

  /** `/>`, which is also remembered in savePtr. */
  lemma EmptyTagToken(r: Bytes)
    ensures GetNextToken(COMPLETETAG + r) == Token(2, COMPLETETAG, r, Some(COMPLETETAG + r))
  {
    hide IsNameChar, SkipMisc, CopyToken, Utf8ToInt;
    var s := COMPLETETAG + r;
    NoMisc(s);
    AsciiCopies(s, 2);
    assert s[..2] == COMPLETETAG && s[2..] == r && s[0] == 0x2F && s[1] == 0x3E;
  }
}
