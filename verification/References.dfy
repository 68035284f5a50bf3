/**
 * The ways to write a character in text and attribute values, sections 4.1 and 4.6 of XML 1.0, and what
 * Parser_getChar and Parser_copyToken make of them (src/ixml/ixmlparser.c:1143-1283).
 */
module References {
  import opened CStrings
  import opened Utf8
  import opened XmlChars
  import opened Escape

  // ---- digits ----

  /** The byte b is a digit of value d; letters in either case. */
  predicate Digit(b: Byte, d: nat) {
    || (d < 10 && b == 0x30 + d)
    || (10 <= d < 16 && (b == 0x41 + (d - 10) || b == 0x61 + (d - 10)))
  }

  /** The bytes are the digits of n in the base 16 or 10, possibly behind zeros. */
  predicate Digits(ds: Bytes, n: nat, base: nat)
    requires base in {10, 16}
    decreases |ds|
  {
    ds != [] &&
    var k := |ds| - 1;
    Digit(ds[k], n % base) && if k == 0 then n < base else Digits(ds[..k], n / base, base)
  }

  /** A 32-bit accumulator that starts with sum and takes the digits one by one. */
  function Accumulated(ds: Bytes, sum: int, base: nat): int {
    if ds == [] then sum else Accumulated(ds[1..], Wrap32(sum * base + HexValue(ds[0])), base)
  }

  lemma {:induction false} AccumulatedLast(ds: Bytes, sum: int, base: nat)
    requires ds != []
    ensures var k := |ds| - 1;
            Accumulated(ds, sum, base) == Wrap32(Accumulated(ds[..k], sum, base) * base + HexValue(ds[k]))
    decreases |ds|
  {
    hide Wrap32, HexValue;
    var k := |ds| - 1;
    if k > 0 {
      var sum1 := Wrap32(sum * base + HexValue(ds[0]));
      AccumulatedLast(ds[1..], sum1, base);
      assert ds[1..][..k - 1] == ds[..k][1..];
    } else {
      assert ds[1..] == [];
    }
  }

  lemma WrapWrapped(a: int, base: nat, d: int)
    requires base in {10, 16}
    ensures Wrap32(Wrap32(a) * base + d) == Wrap32(a * base + d)
  {
    var m := (a + 0x8000_0000) / 0x1_0000_0000;
    assert Wrap32(a) == a - m * 0x1_0000_0000;
    WrapShifted(a * base + d, -m * base);
  }

  lemma WrapShifted(x: int, m: int)
    ensures Wrap32(x + m * 0x1_0000_0000) == Wrap32(x)
  {
    ModShifted(x + 0x8000_0000, m);
  }

  lemma ModShifted(x: int, m: int)
    ensures (x + m * 0x1_0000_0000) % 0x1_0000_0000 == x % 0x1_0000_0000
  {
  }

  lemma DigitValue(b: Byte, d: nat)
    requires Digit(b, d)
    ensures HexValue(b) == d && IsHexDigit(b) && (d < 10 ==> IsDecDigit(b) && b - 0x30 == d)
  {
  }

  lemma {:induction false} AccumulatedIs(ds: Bytes, n: nat, base: nat)
    requires base in {10, 16} && Digits(ds, n, base)
    ensures Accumulated(ds, 0, base) == Wrap32(n)
    decreases |ds|
  {
    hide Wrap32, HexValue;
    var k := |ds| - 1;
    AccumulatedLast(ds, 0, base);
    DigitValue(ds[k], n % base);
    if k == 0 {
      assert ds[..k] == [];
    } else {
      AccumulatedIs(ds[..k], n / base, base);
      WrapWrapped(n / base, base, n % base);
      assert n / base * base + n % base == n;
    }
  }

  lemma {:induction false} HexRunIs(ds: Bytes, r: Bytes, sum: int)
    requires forall i | 0 <= i < |ds| :: IsHexDigit(ds[i])
    requires r != [] && !IsHexDigit(r[0])
    ensures HexRun(ds + r, sum) == (Accumulated(ds, sum, 16), |ds|)
    decreases |ds|
  {
    hide Wrap32, HexValue;
    if ds == [] {
      assert ds + r == r;
    } else {
      assert (ds + r)[1..] == ds[1..] + r;
      HexRunIs(ds[1..], r, Wrap32(sum * 16 + HexValue(ds[0])));
    }
  }

  lemma {:induction false} DecRunIs(ds: Bytes, r: Bytes, sum: int)
    requires forall i | 0 <= i < |ds| :: IsDecDigit(ds[i])
    requires r != [] && !IsDecDigit(r[0])
    ensures DecRun(ds + r, sum) == (Accumulated(ds, sum, 10), |ds|)
    decreases |ds|
  {
    hide Wrap32;
    if ds == [] {
      assert ds + r == r;
    } else {
      assert (ds + r)[1..] == ds[1..] + r;
      DecRunIs(ds[1..], r, Wrap32(sum * 10 + HexValue(ds[0])));
    }
  }

  lemma {:induction false} AllDigits(ds: Bytes, n: nat, base: nat)
    requires base in {10, 16} && Digits(ds, n, base)
    ensures forall i | 0 <= i < |ds| :: IsHexDigit(ds[i]) && (base == 10 ==> IsDecDigit(ds[i]))
    decreases |ds|
  {
    var k := |ds| - 1;
    DigitValue(ds[k], n % base);
    if k > 0 {
      AllDigits(ds[..k], n / base, base);
      assert forall i | 0 <= i < k :: ds[i] == ds[..k][i];
    }
  }

  // ---- numeric references ----

  /** `&#x` or `&#X`, hexadecimal digits, and `;` */
  function HexReference(capital: bool, ds: Bytes): Bytes {
    [0x26, 0x23, if capital then 0x58 else 0x78] + ds + [0x3B]
  }

  /** `&#`, decimal digits, and `;` */
  function DecReference(ds: Bytes): Bytes {
    [0x26, 0x23] + ds + [0x3B]
  }

  /** What a numeric reference to n is read as: the number is taken modulo 2^32, as a signed one. */
  function Referred(n: nat, len: nat): (int, nat) {
    var m := (n + 0x8000_0000) % 0x1_0000_0000 - 0x8000_0000;
    if IsXmlChar(m) then (m, len) else (-1, 0)
  }

  lemma HexRead(capital: bool, ds: Bytes, n: nat, t: Bytes)
    requires Digits(ds, n, 16)
    ensures GetChar(HexReference(capital, ds) + t) == Referred(n, |HexReference(capital, ds)|)
  {
    hide HexRun, DecRun, Digits;
    var s := HexReference(capital, ds) + t;
    assert s[3..] == ds + ([0x3B] + t);
    AllDigits(ds, n, 16);
    HexRunIs(ds, [0x3B] + t, 0);
    AccumulatedIs(ds, n, 16);
    assert s[3 + |ds|] == 0x3B;
    NoEntity(s);
    assert StartsWithNoCase(s, ESC_HEX) by {
      assert Lower(s[2]) == 0x78;
    }
  }

  lemma DecRead(ds: Bytes, n: nat, t: Bytes)
    requires Digits(ds, n, 10)
    ensures GetChar(DecReference(ds) + t) == Referred(n, |DecReference(ds)|)
  {
    hide HexRun, DecRun, Digits;
    var s := DecReference(ds) + t;
    assert s[2..] == ds + ([0x3B] + t);
    AllDigits(ds, n, 10);
    DecRunIs(ds, [0x3B] + t, 0);
    AccumulatedIs(ds, n, 10);
    assert s[2 + |ds|] == 0x3B;
    NoEntity(s);
    assert !StartsWithNoCase(s, ESC_HEX) by {
      NonEmpty(ds, n);
      assert s[2] == ds[0] && IsDecDigit(ds[0]);
      assert Lower(s[2]) != Lower(ESC_HEX[2]);
    }
  }

  lemma NonEmpty(ds: Bytes, n: nat)
    requires Digits(ds, n, 10)
    ensures ds != []
  {
  }

  lemma NoEntity(s: Bytes)
    requires |s| > 1 && s[0] == 0x26 && s[1] == 0x23
    ensures !StartsWithNoCase(s, QUOT) && !StartsWithNoCase(s, LT) && !StartsWithNoCase(s, GT)
    ensures !StartsWithNoCase(s, APOS) && !StartsWithNoCase(s, AMP) && StartsWithNoCase(s, ESC_DEC)
  {
    assert Lower(s[1]) == 0x23;
    assert Lower(QUOT[1]) == 0x71 && Lower(LT[1]) == 0x6C && Lower(GT[1]) == 0x67 && Lower(APOS[1]) == 0x61;
  }

  /** References to characters mean these characters, in hexadecimal and decimal. */
  lemma ReferenceMeans(c: int, capital: bool, ds: Bytes, t: Bytes)
    requires IsXmlChar(c)
    ensures Digits(ds, c, 16) ==> GetChar(HexReference(capital, ds) + t) == (c, |ds| + 4)
    ensures Digits(ds, c, 10) ==> GetChar(DecReference(ds) + t) == (c, |ds| + 3)
  {
    hide GetChar, Digits;
    if Digits(ds, c, 16) {
      HexRead(capital, ds, c, t);
    }
    if Digits(ds, c, 10) {
      DecRead(ds, c, t);
    }
  }

  // ---- written text ----

  /** One character of text or of a value, as it can be written. */
  datatype Spelling =
    | Plain(c: int)                                  // the character itself
    | Entity(c: int, raw: Bytes)                     // one of the five names, in any case
    | Hex(c: int, capital: bool, digits: Bytes)
    | Dec(c: int, digits: Bytes)

  /** "&lt;", "&gt;", "&amp;", "&quot;" and "&apos;", with letters in either case. */
  predicate Named(c: int, raw: Bytes) {
    var name: seq<nat> := if c == 0x3C then [0x26, 0x6C, 0x74, 0x3B]
                          else if c == 0x3E then [0x26, 0x67, 0x74, 0x3B]
                          else if c == 0x26 then [0x26, 0x61, 0x6D, 0x70, 0x3B]
                          else if c == 0x22 then [0x26, 0x71, 0x75, 0x6F, 0x74, 0x3B]
                          else if c == 0x27 then [0x26, 0x61, 0x70, 0x6F, 0x73, 0x3B]
                          else [];
    && name != [] && |raw| == |name|
    && forall i | 0 <= i < |name| :: raw[i] == name[i] || (0x61 <= name[i] <= 0x7A && raw[i] == name[i] - 0x20)
  }

  predicate Correct(x: Spelling) {
    IsXmlChar(x.c) &&
    match x
    case Plain(c) => c != 0x26
    case Entity(c, raw) => Named(c, raw)
    case Hex(c, _, ds) => Digits(ds, c, 16)
    case Dec(c, ds) => Digits(ds, c, 10)
  }

  function Raw(x: Spelling): Bytes {
    match x
    case Plain(c) => IntToUtf8(c)
    case Entity(_, raw) => raw
    case Hex(_, capital, ds) => HexReference(capital, ds)
    case Dec(_, ds) => DecReference(ds)
  }

  /** The bytes that are written. */
  function RawText(xs: seq<Spelling>): Bytes {
    if xs == [] then [] else Raw(xs[0]) + RawText(xs[1..])
  }

  /** The text that is meant, in UTF-8. */
  function Meant(xs: seq<Spelling>): Bytes {
    if xs == [] then [] else IntToUtf8(xs[0].c) + Meant(xs[1..])
  }

  predicate CorrectText(xs: seq<Spelling>) {
    forall i | 0 <= i < |xs| :: Correct(xs[i])
  }

  lemma EntityRead(c: int, raw: Bytes, t: Bytes)
    requires Named(c, raw)
    ensures GetChar(raw + t) == (c, |raw|)
  {
    var s := raw + t;
    assert forall i | 0 <= i < |raw| :: s[i] == raw[i];
    hide HexRun, DecRun, Utf8ToInt;
    if c == 0x3C {
      assert Lower(s[1]) == 0x6C;
    } else if c == 0x3E {
      assert Lower(s[1]) == 0x67;
    } else if c == 0x26 {
      assert Lower(s[1]) == 0x61 && Lower(s[2]) == 0x6D;
    } else if c == 0x22 {
      assert Lower(s[1]) == 0x71;
    } else {
      assert Lower(s[1]) == 0x61 && Lower(s[2]) == 0x70;
    }
  }

  lemma PlainRead(c: int, t: Bytes)
    requires IsXmlChar(c) && c != 0x26
    ensures GetChar(IntToUtf8(c) + t) == (c, |IntToUtf8(c)|)
  {
    hide HexRun, DecRun, Utf8ToInt;
    if c < 0x80 {
      assert IntToUtf8(c) == [c];
    } else {
      GetCharHigh(c, t);
    }
  }

  /** Reading one character, however it is written. */
  lemma SpellingRead(x: Spelling, t: Bytes)
    requires Correct(x)
    ensures GetChar(Raw(x) + t) == (x.c, |Raw(x)|) && Raw(x) != []
  {
    hide GetChar, IntToUtf8, Digits, Named;
    match x
    case Plain(c) =>
      PlainRead(c, t);
      Encodable(c);
    case Entity(c, raw) =>
      EntityRead(c, raw, t);
      NamedSome(c, raw);
    case Hex(c, capital, ds) => ReferenceMeans(c, capital, ds, t);
    case Dec(c, ds) => ReferenceMeans(c, false, ds, t);
  }

  lemma Encodable(c: int)
    requires IsXmlChar(c)
    ensures IntToUtf8(c) != []
  {
  }

  lemma NamedSome(c: int, raw: Bytes)
    requires Named(c, raw)
    ensures raw != []
  {
  }

  /** Copying written text gives the text that is meant, whatever follows it. */
  lemma {:induction false} TextCopied(xs: seq<Spelling>, t: Bytes)
    requires CorrectText(xs)
    ensures CopyLoop(RawText(xs) + t, |RawText(xs)|) == (true, Meant(xs))
  {
    hide Raw, IntToUtf8, GetChar, Correct;
    if xs != [] {
      var rest := RawText(xs[1..]);
      TextCopied(xs[1..], t);
      SpellingRead(xs[0], rest + t);
      CorrectChar(xs[0]);
      CopyStep(Raw(xs[0]), xs[0].c, rest, t, Meant(xs[1..]));
    }
  }

  lemma CorrectChar(x: Spelling)
    requires Correct(x)
    ensures x.c > 0
  {
  }

  lemma CopySpelled(xs: seq<Spelling>, t: Bytes)
    requires CorrectText(xs) && xs != []
    ensures CopyToken(RawText(xs) + t, |RawText(xs)|) == (true, Meant(xs))
  {
    hide Raw, IntToUtf8, GetChar, Correct, CopyLoop;
    TextCopied(xs, t);
    SpellingRead(xs[0], []);
  }
}
