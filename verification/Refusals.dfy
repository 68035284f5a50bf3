/**
 * What the parser refuses, from whatever state: `<` in attribute values, `]]>` in text, references that are none, and
 * tags with a missing `=`, quote or `>` (src/ixml/ixmlparser.c:1143-1228, 2101-2204, 2276-2435).
 */
module Refusals {
  import opened CStrings
  import opened Utf8
  import opened XmlChars
  import opened Escape
  import opened XmlTree
  import opened Lexer
  import opened Parser
  import opened TokenLemmas
  import opened References
  import opened Sources
  import opened SourceSteps

  // ---- references ----

  lemma {:induction false} HexRunDigits(s: Bytes, sum: int)
    ensures var (v, n) := HexRun(s, sum);
            (forall i | 0 <= i < n :: IsHexDigit(s[i])) && v == Accumulated(s[..n], sum, 16)
    decreases |s|
  {
    hide Wrap32, HexValue;
    if s != [] && IsHexDigit(s[0]) {
      var sum1 := Wrap32(sum * 16 + HexValue(s[0]));
      HexRunDigits(s[1..], sum1);
      var n := HexRun(s[1..], sum1).1;
      assert s[..n + 1][1..] == s[1..][..n];
    }
  }

  lemma {:induction false} DecRunDigits(s: Bytes, sum: int)
    ensures var (v, n) := DecRun(s, sum);
            (forall i | 0 <= i < n :: IsDecDigit(s[i])) && v == Accumulated(s[..n], sum, 10)
    decreases |s|
  {
    hide Wrap32;
    if s != [] && IsDecDigit(s[0]) {
      assert HexValue(s[0]) == s[0] - 0x30;
      var sum1 := Wrap32(sum * 10 + (s[0] - 0x30));
      DecRunDigits(s[1..], sum1);
      var n := DecRun(s[1..], sum1).1;
      assert s[..n + 1][1..] == s[1..][..n];
    }
  }

  /** Every run of digits stands for a number. */
  lemma {:induction false} DigitsOfSome(ds: Bytes, base: nat) returns (n: nat)
    requires base in {10, 16} && ds != []
    requires forall i | 0 <= i < |ds| :: IsHexDigit(ds[i]) && (base == 10 ==> IsDecDigit(ds[i]))
    ensures Digits(ds, n, base)
    decreases |ds|
  {
    var k := |ds| - 1;
    var d: nat := HexValue(ds[k]);
    assert d < base && Digit(ds[k], d);
    if k == 0 {
      n := d;
    } else {
      var m := DigitsOfSome(ds[..k], base);
      n := m * base + d;
      Quotients(m, base, d);
    }
  }

  lemma {:induction false} Quotients(m: nat, base: nat, d: nat)
    requires base in {10, 16} && d < base
    ensures (m * base + d) % base == d && (m * base + d) / base == m
  {
  }

  /** What is read behind `&`: one of the five names, or a number in digits. */
  predicate Refers(s: Bytes, x: Spelling, n: nat) {
    && Raw(x) <= s && GetChar(s) == (x.c, |Raw(x)|)
    && match x
       case Plain(_) => false
       case Entity(c, raw) => Named(c, raw)
       case Hex(c, _, ds) => Digits(ds, n, 16) && (c, |Raw(x)|) == Referred(n, |Raw(x)|)
       case Dec(c, ds) => Digits(ds, n, 10) && (c, |Raw(x)|) == Referred(n, |Raw(x)|)
  }

  /** Only the five names and numeric references are read behind `&`. */
  lemma {:induction false} AmpersandMeans(s: Bytes) returns (x: Spelling, n: nat)
    requires At(s, 0) == 0x26 && GetChar(s).0 > 0
    ensures Refers(s, x, n)
  {
    hide GetChar, Refers;
    if StartsWithNoCase(s, QUOT) || StartsWithNoCase(s, LT) || StartsWithNoCase(s, GT) || StartsWithNoCase(s, APOS)
       || StartsWithNoCase(s, AMP) {
      NamedRead(s);
      x, n := Entity(GetChar(s).0, s[..GetChar(s).1]), 0;
      assert Refers(s, x, n) by {
        EntityRefers(s, GetChar(s).0, GetChar(s).1);
      }
    } else if StartsWithNoCase(s, ESC_HEX) {
      x, n := HexRefers(s);
    } else {
      x, n := DecRefers(s);
    }
  }

  lemma {:induction false} EntityRefers(s: Bytes, c: int, k: nat)
    requires k <= |s| && GetChar(s) == (c, k) && Named(c, s[..k])
    ensures Refers(s, Entity(c, s[..k]), 0)
  {
    hide GetChar, Named;
  }

  predicate NoName(s: Bytes) {
    && !StartsWithNoCase(s, QUOT) && !StartsWithNoCase(s, LT) && !StartsWithNoCase(s, GT)
    && !StartsWithNoCase(s, APOS) && !StartsWithNoCase(s, AMP)
  }

  lemma {:induction false} HexCase(s: Bytes)
    requires At(s, 0) == 0x26 && GetChar(s).0 > 0 && NoName(s) && StartsWithNoCase(s, ESC_HEX)
    ensures var (v, k) := HexRun(s[3..], 0);
            v > 0 && IsXmlChar(v) && k + 3 < |s| && s[k + 3] == 0x3B && GetChar(s) == (v, k + 4)
  {
    hide Utf8ToInt, HexRun, DecRun, StartsWithNoCase;
  }

  lemma {:induction false} DecCase(s: Bytes)
    requires At(s, 0) == 0x26 && GetChar(s).0 > 0 && NoName(s) && !StartsWithNoCase(s, ESC_HEX)
    ensures StartsWithNoCase(s, ESC_DEC)
    ensures var (v, k) := DecRun(s[2..], 0);
            v > 0 && IsXmlChar(v) && k + 2 < |s| && s[k + 2] == 0x3B && GetChar(s) == (v, k + 3)
  {
    hide Utf8ToInt, HexRun, DecRun, StartsWithNoCase;
  }

  lemma {:induction false} HexRefers(s: Bytes) returns (x: Spelling, n: nat)
    requires At(s, 0) == 0x26 && GetChar(s).0 > 0 && NoName(s) && StartsWithNoCase(s, ESC_HEX)
    ensures Refers(s, x, n)
  {
    hide GetChar, Digits, HexRun, Accumulated, IsXmlChar, IsHexDigit, Named, StartsWithNoCase;
    HexCase(s);
    HexFront(s);
    HexRunDigits(s[3..], 0);
    var ds := s[3..][..HexRun(s[3..], 0).1];
    NotZero(ds, 16, GetChar(s).0);
    n := DigitsOfSome(ds, 16);
    AccumulatedIs(ds, n, 16);
    x := Hex(GetChar(s).0, s[2] == 0x58, ds);
    HexBytes(s, ds);
  }

  lemma {:induction false} HexBytes(s: Bytes, ds: Bytes)
    requires |s| >= |ds| + 4 && s[0] == 0x26 && s[1] == 0x23 && s[2] in {0x58, 0x78}
    requires ds == s[3..][..|ds|] && s[|ds| + 3] == 0x3B
    ensures HexReference(s[2] == 0x58, ds) == s[..|ds| + 4]
  {
  }

  lemma {:induction false} DecRefers(s: Bytes) returns (x: Spelling, n: nat)
    requires At(s, 0) == 0x26 && GetChar(s).0 > 0 && NoName(s) && !StartsWithNoCase(s, ESC_HEX)
    ensures Refers(s, x, n)
  {
    hide GetChar, Digits, DecRun, Accumulated, IsXmlChar, IsHexDigit, IsDecDigit, Named, StartsWithNoCase;
    DecCase(s);
    DecFront(s);
    DecRunDigits(s[2..], 0);
    var ds := s[2..][..DecRun(s[2..], 0).1];
    NotZero(ds, 10, GetChar(s).0);
    DecIsHex(ds);
    n := DigitsOfSome(ds, 10);
    AccumulatedIs(ds, n, 10);
    x := Dec(GetChar(s).0, ds);
    DecBytes(s, ds);
  }

  lemma {:induction false} DecBytes(s: Bytes, ds: Bytes)
    requires |s| >= |ds| + 3 && s[0] == 0x26 && s[1] == 0x23 && ds == s[2..][..|ds|] && s[|ds| + 2] == 0x3B
    ensures DecReference(ds) == s[..|ds| + 3]
  {
  }

  lemma {:induction false} DecFront(s: Bytes)
    requires StartsWithNoCase(s, ESC_DEC)
    ensures s[0] == 0x26 && s[1] == 0x23
  {
    assert Lower(s[0]) == Lower(ESC_DEC[0]) && Lower(s[1]) == Lower(ESC_DEC[1]);
  }

  lemma {:induction false} NotZero(ds: Bytes, base: nat, c: int)
    requires Accumulated(ds, 0, base) == c && c > 0
    ensures ds != []
  {
  }

  lemma {:induction false} DecIsHex(ds: Bytes)
    requires forall i | 0 <= i < |ds| :: IsDecDigit(ds[i])
    ensures forall i | 0 <= i < |ds| :: IsHexDigit(ds[i])
  {
  }

  lemma {:induction false} HexFront(s: Bytes)
    requires StartsWithNoCase(s, ESC_HEX)
    ensures s[0] == 0x26 && s[1] == 0x23 && s[2] in {0x58, 0x78}
  {
    assert Lower(s[0]) == Lower(ESC_HEX[0]) && Lower(s[1]) == Lower(ESC_HEX[1]) && Lower(s[2]) == Lower(ESC_HEX[2]);
  }

  lemma {:induction false} NamedRead(s: Bytes)
    requires StartsWithNoCase(s, QUOT) || StartsWithNoCase(s, LT) || StartsWithNoCase(s, GT) || StartsWithNoCase(s, APOS)
             || StartsWithNoCase(s, AMP)
    requires At(s, 0) == 0x26
    ensures var (c, k) := GetChar(s); k <= |s| && Named(c, s[..k])
  {
    hide HexRun, DecRun, Utf8ToInt;
    var (c, k) := GetChar(s);
    var name := if c == 0x22 then QUOT else if c == 0x3C then LT else if c == 0x3E then GT else if c == 0x27 then APOS else AMP;
    assert StartsWithNoCase(s, name) && |name| == k;
    forall i | 0 <= i < k
      ensures s[..k][i] == name[i] || (0x61 <= name[i] <= 0x7A && s[..k][i] == name[i] - 0x20)
    {
      assert Lower(s[i]) == Lower(name[i]);
    }
  }

  // ---- attribute values ----

  /** Bytes without `&` and `<` do not matter to the check for `<`. */
  lemma {:induction false} NoLessSteps(s: Bytes, len: int, n: nat)
    requires n <= len && n <= |s| && NoLessThan(s, len) && forall i | 0 <= i < n :: s[i] !in {0x26, 0x3C}
    ensures NoLessThan(s[n..], len - n)
    decreases n
  {
    if n == 0 {
      assert s[0..] == s;
    } else {
      assert forall i | 0 <= i < n - 1 :: s[1..][i] == s[i + 1];
      NoLessSteps(s[1..], len - 1, n - 1);
      assert s[1..][n - 1..] == s[n..];
    }
  }

  /** The bytes of one character, but for the first one. */
  lemma {:induction false} CharBytes(s: Bytes)
    requires s != [] && GetChar(s).0 > 0
    ensures var n := GetChar(s).1;
            1 <= n <= |s| && (forall i | 1 <= i < n :: s[i] !in {0x26, 0x3C}) && (s[0] == 0x3C ==> n == 1)
            && (s[0] == 0x26 ==> n >= 2)
  {
    hide HexRun, DecRun, Digits, Named, IntToUtf8, Utf8ToInt;
    var (c, n) := GetChar(s);
    if s[0] == 0x26 {
      var x, m := AmpersandMeans(s);
      SpelledBytes(x, m);
      assert forall i | 0 <= i < n :: s[i] == Raw(x)[i];
    } else if n > 1 {
      HighBytes(s);
    }
  }

  lemma {:induction false} HighBytes(s: Bytes)
    requires s != [] && Utf8ToInt(s).1 > 1
    ensures forall i | 0 <= i < Utf8ToInt(s).1 <= |s| :: s[i] >= 0x80
  {
  }

  /** A name, or the digits of n. */
  predicate NameOrDigits(x: Spelling, n: nat) {
    match x
    case Plain(_) => false
    case Entity(c, raw) => Named(c, raw)
    case Hex(_, _, ds) => Digits(ds, n, 16)
    case Dec(_, ds) => Digits(ds, n, 10)
  }

  lemma {:induction false} SpelledBytes(x: Spelling, n: nat)
    requires NameOrDigits(x, n)
    ensures |Raw(x)| >= 2 && forall i | 1 <= i < |Raw(x)| :: Raw(x)[i] !in {0x26, 0x3C}
  {
    match x
    case Plain(_) =>
    case Entity(c, raw) =>
    case Hex(_, _, ds) => AllDigits(ds, n, 16);
    case Dec(_, ds) => AllDigits(ds, n, 10);
  }

  /** The byte behind an `&` is not looked at. */
  lemma {:induction false} BehindAmpersand(s: Bytes, len: int)
    requires len > 0 && |s| > 1 && s[0] == 0x26 && NoLessThan(s, len)
    ensures NoLessThan(s[2..], len - 2)
  {
  }

  lemma {:induction false} FirstNotLess(s: Bytes, len: int)
    requires len > 0 && s != [] && NoLessThan(s, len)
    ensures s[0] != 0x3C
  {
  }

  lemma {:induction false} TwoFurther(s: Bytes, len: nat, n: nat)
    requires 2 <= n <= len <= |s| && NoLessThan(s[2..], len - 2) && forall i | 1 <= i < n :: s[i] !in {0x26, 0x3C}
    ensures NoLessThan(s[n..], len - n)
  {
    hide NoLessThan;
    var t := s[2..];
    forall i | 0 <= i < n - 2
      ensures t[i] !in {0x26, 0x3C}
    {
      assert t[i] == s[i + 2];
    }
    NoLessSteps(t, len - 2, n - 2);
    assert t[n - 2..] == s[n..];
  }

  /** The check for `<` goes on behind a character that was copied. */
  lemma {:induction false} StepOver(s: Bytes, len: nat)
    requires 0 < len <= |s| && NoLessThan(s, len) && GetChar(s).0 > 0 && GetChar(s).1 <= len
    ensures var n := GetChar(s).1;
            1 <= n <= |s| && NoLessThan(s[n..], len - n) && forall i | 0 <= i < n :: s[i] != 0x3C
  {
    hide GetChar, NoLessThan;
    var n := GetChar(s).1;
    CharBytes(s);
    FirstNotLess(s, len);
    if s[0] == 0x26 && |s| > 1 {
      BehindAmpersand(s, len);
      TwoFurther(s, len, n);
    } else {
      NoLessSteps(s, len, n);
    }
  }

  /** What is copied as a value holds no `<`, also behind an `&` where the check does not look. */
  lemma {:induction false} CopiedNoLess(s: Bytes, len: nat)
    requires len <= |s| && NoLessThan(s, len) && CopyLoop(s, len).0
    ensures forall i | 0 <= i < len :: s[i] != 0x3C
    decreases len
  {
    hide GetChar, NoLessThan;
    if len > 0 {
      var n := GetChar(s).1;
      assert n <= len by {
        NothingLeft(s[n..], len - n);
      }
      StepOver(s, len);
      CopiedNoLess(s[n..], len - n);
      forall i | 0 <= i < len
        ensures s[i] != 0x3C
      {
        assert i >= n ==> s[i] == s[n..][i - n];
      }
    }
  }

  lemma {:induction false} NothingLeft(s: Bytes, len: int)
    ensures CopyLoop(s, len).0 ==> len >= 0
  {
  }

  /** A quoted value with `<` in it is refused. */
  lemma {:induction false} LessThanRefused(p: State, gap: Bytes, quote: Byte, v: Bytes, r: Bytes)
    requires Gap(gap) && quote in {0x22, 0x27} && quote !in v && 0x3C in v
    requires p.rest == gap + ([quote] + (v + ([quote] + r)))
    ensures AttributeValue(p) == None
  {
    hide GetNextToken, CopyLoop, NoLessThan, Find, Gap;
    var s := v + ([quote] + r);
    GapWhite(gap);
    GapToken(gap, [quote] + s);
    PunctToken(quote, s);
    NextTokenIs(p, Token(1, [quote], s, None));
    assert v + [quote] + r == s;
    forall i | 0 <= i < |v|
      ensures !([quote] <= s[i..])
    {
      assert s[i..][0] == v[i];
    }
    FindAt(v, [quote], r);
    var i :| 0 <= i < |v| && v[i] == 0x3C;
    assert s[i] == 0x3C;
    if NoLessThan(s, |v|) && CopyLoop(s, |v|).0 {
      CopiedNoLess(s, |v|);
      assert false;
    }
  }

  // ---- text ----

  lemma {:induction false} TextStopsAtEnd(raw: Bytes, t: Bytes)
    requires forall i | 0 <= i < |raw| :: raw[i] != 0x3C
    ensures CDEND <= (raw + (CDEND + t))[TextLength(raw + (CDEND + t))..]
  {
    var s := raw + (CDEND + t);
    if raw == [] {
      assert s == CDEND + t;
    } else if !(CDEND <= s) {
      assert s[1..] == raw[1..] + (CDEND + t);
      TextStopsAtEnd(raw[1..], t);
      assert s[TextLength(s)..] == s[1..][TextLength(s[1..])..];
    }
  }

  /** Text with `]]>` in it is refused. */
  lemma {:induction false} SectionEndRefused(p: State, raw: Bytes, t: Bytes)
    requires p.mode.ContentMode? && p.rest == raw + ([0x5D, 0x5D, 0x3E] + t)
    requires forall i | 0 <= i < |raw| :: raw[i] != 0x3C
    ensures GetNextNode(p) == Failed && ParseLoop(p) == SyntaxError
  {
    hide CopyToken, TextLength, SkipWhite;
    assert CDEND == [0x5D, 0x5D, 0x3E];
    TextStopsAtEnd(raw, t);
    FirstSolid(p.rest, |raw|);
  }

  /** White space is skipped at most up to a byte that is none. */
  lemma {:induction false} FirstSolid(s: Bytes, k: nat)
    requires k < |s| && !IsWhite(s[k]) && forall i | 0 <= i <= k :: s[i] != 0x3C
    ensures SkipWhite(s) != [] && SkipWhite(s)[0] != 0x3C
    decreases |s|
  {
    if IsWhite(s[0]) {
      assert s[1..][k - 1] == s[k] && forall i | 0 <= i <= k - 1 :: s[1..][i] == s[i + 1];
      FirstSolid(s[1..], k - 1);
    }
  }

  // ---- tags ----

  /** A token that is punctuation is the byte it was read from. */
  lemma {:induction false} PunctFirst(s: Bytes)
    requires StartsToken(s) && GetNextToken(s).len > 0 && GetNextToken(s).tok[0] in {0x22, 0x27, 0x3D, 0x3E}
    ensures s[0] == GetNextToken(s).tok[0]
  {
    hide IsNameChar, Utf8ToInt, CopyLoop, NameRun;
    GapSkipped([], s);
    assert [] + s == s;
    var b := s[0];
    var n := TokenLength(s).value;
    if b in {0x22, 0x27, 0x3D, 0x3E, 0x3C, 0x2F} {
      if OverlongEndTag(s) {
        OverlongCopy(s);
      } else {
        AsciiCopies(s, n);
      }
    } else {
      NameFirst(s, n);
    }
  }

  /** A name token begins with a letter, `_`, `:` or a byte above ASCII. */
  lemma {:induction false} NameFirst(s: Bytes, n: nat)
    requires n > 0 && IsNameChar(Utf8ToInt(s).0, false) && CopyToken(s, n).0
    ensures CopyToken(s, n).1 != [] && CopyToken(s, n).1[0] !in {0x22, 0x27, 0x3D, 0x3E}
  {
    hide IsNameChar, Utf8ToInt, IntToUtf8;
    NameStartByte(s, false);
    var (c, k) := GetChar(s);
    GetCharPlain(s);
    NameEncoded(c);
  }

  lemma {:induction false} NameEncoded(c: int)
    requires IsNameChar(c, false)
    ensures IntToUtf8(c) != [] && IntToUtf8(c)[0] !in {0x22, 0x27, 0x3D, 0x3E}
    ensures c > 0 && (c < 0x80 ==> c !in {0x22, 0x27, 0x3D, 0x3E})
  {
    hide IsNameChar;
    if 0 <= c < 0x80 {
      AsciiNameChars(c);
    }
  }

  /** An attribute name without `=` behind it is refused. */
  lemma {:induction false} EqualsMissing(p: State, gap: Bytes, s: Bytes)
    requires p.stack != [] && Gap(gap) && p.rest == gap + s && StartsToken(s) && s[0] != 0x3D
    ensures ProcessAttribute(p) == Failed
  {
    hide GetNextToken, IsNameChar, Utf8ToInt, Gap;
    GapWhite(gap);
    GapToken(gap, s);
    NextTokenIs(p, GetNextToken(p.rest));
    if GetNextToken(s).len > 0 && GetNextToken(s).tok[0] == 0x3D {
      PunctFirst(s);
    }
  }

  /** A value without a quote is refused. */
  lemma {:induction false} QuoteMissing(p: State, gap: Bytes, s: Bytes)
    requires Gap(gap) && p.rest == gap + s && StartsToken(s) && s[0] !in {0x22, 0x27}
    ensures AttributeValue(p) == None
  {
    hide GetNextToken, Gap;
    GapWhite(gap);
    GapToken(gap, s);
    NextTokenIs(p, GetNextToken(p.rest));
    if GetNextToken(s).len > 0 && GetNextToken(s).tok[0] in {0x22, 0x27} {
      PunctFirst(s);
    }
  }

  /** An end tag with anything but a gap between name and `>` is refused. */
  lemma {:induction false} EndBracketMissing(p: State, name: Bytes, gap: Bytes, s: Bytes)
    requires ValidName(name) && Gap(gap) && StartsToken(s) && EndsName(gap + s) && s[0] != 0x3E
    requires p.rest == name + (gap + s)
    ensures ProcessETag(p) == Failed
  {
    hide GetNextToken, ValidName, Gap, EndsName;
    NameFirstByte(name);
    NameToken(name, gap + s);
    NextTokenIs(p, Token(|name|, name, gap + s, None));
    GapWhite(gap);
    GapSkipped(gap, s);
    var p1 := NextToken(p).1;
    NextTokenIs(p1.(rest := s), GetNextToken(s));
    if GetNextToken(s).len > 0 && GetNextToken(s).tok == [0x3E] {
      PunctFirst(s);
    }
  }
}
