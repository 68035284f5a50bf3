/**
 * Exactly which bytes the parser copies as text, and what they mean: characters in the shortest or a longer form, the
 * five names, and numeric references (src/ixml/ixmlparser.c:1143-1283).
 */
module Copying {
  import opened CStrings
  import opened Utf8
  import opened XmlChars
  import opened Escape
  import opened References
  import opened Refusals

  /** The bytes are the reference x, to the number n if it is numeric. */
  predicate IsReference(raw: Bytes, x: Spelling, n: nat) {
    raw == Raw(x) &&
    match x
    case Plain(_) => false
    case Entity(c, name) => Named(c, name)
    case Hex(c, _, ds) => Digits(ds, n, 16) && (c, |raw|) == Referred(n, |raw|)
    case Dec(c, ds) => Digits(ds, n, 10) && (c, |raw|) == Referred(n, |raw|)
  }

  /** The bytes stand for the character. */
  ghost predicate Stands(raw: Bytes, c: int) {
    IsXmlChar(c) &&
    (if At(raw, 0) != 0x26 then IsForm(raw, c, |raw|) else exists x: Spelling, n: nat :: IsReference(raw, x, n) && x.c == c)
  }

  lemma ReferenceRead(raw: Bytes, x: Spelling, n: nat, t: Bytes)
    requires IsReference(raw, x, n) && IsXmlChar(x.c)
    ensures GetChar(raw + t) == (x.c, |raw|) && raw != []
  {
    hide GetChar, Named, Digits;
    match x
    case Entity(c, name) =>
      EntityRead(c, name, t);
      NamedSome(c, name);
    case Hex(c, capital, ds) => HexRead(capital, ds, n, t);
    case Dec(c, ds) => DecRead(ds, n, t);
  }

  /** A form depends on its own octets only. */
  lemma FormLocal(s: Bytes, c: nat, k: nat)
    requires k <= |s|
    ensures k > 0 ==> (IsForm(s, c, k) <==> IsForm(s[..k], c, k))
  {
    if k > 0 {
      assert s[..k][1..k] == s[1..k];
    }
  }

  lemma PlainIff(s: Bytes, c: int, k: nat)
    requires 0 < k <= |s| && s[0] != 0x26 && IsXmlChar(c)
    ensures GetChar(s) == (c, k) <==> IsForm(s[..k], c, k)
  {
    hide Utf8ToInt, IsForm, HexRun, DecRun;
    FormLocal(s, c, k);
    DecodeIff(s, c, k);
    if s[0] < 0x80 {
      OneOctet(s);
    }
  }

  lemma OneOctet(s: Bytes)
    requires s != [] && s[0] < 0x80
    ensures Utf8ToInt(s) == (s[0], 1)
  {
  }

  /** One character is read from k bytes if and only if they stand for it. */
  lemma GetCharIff(s: Bytes, c: int, k: nat)
    requires 0 < k <= |s|
    ensures c > 0 && GetChar(s) == (c, k) <==> Stands(s[..k], c)
  {
    hide GetChar, IsForm, IsReference, Refers, IsXmlChar;
    GetCharXml(s);
    XmlPositive(c);
    if s[0] != 0x26 {
      if IsXmlChar(c) {
        PlainIff(s, c, k);
      }
    } else {
      if c > 0 && GetChar(s) == (c, k) {
        var x, n := AmpersandMeans(s);
        RefersTo(s, x, n);
      }
      if Stands(s[..k], c) {
        var x: Spelling, n: nat :| IsReference(s[..k], x, n) && x.c == c;
        ReferenceRead(s[..k], x, n, s[k..]);
        assert s[..k] + s[k..] == s;
      }
    }
  }

  lemma GetCharXml(s: Bytes)
    ensures GetChar(s).0 > 0 ==> IsXmlChar(GetChar(s).0)
  {
  }

  lemma XmlPositive(c: int)
    ensures IsXmlChar(c) ==> c > 0
  {
  }

  lemma RefersTo(s: Bytes, x: Spelling, n: nat)
    requires Refers(s, x, n)
    ensures GetChar(s) == (x.c, |Raw(x)|) && |Raw(x)| <= |s| && IsReference(s[..|Raw(x)|], x, n)
  {
    hide GetChar, Named, Digits;
  }

  /** A character and the number of its bytes. */
  datatype Piece = Piece(c: int, len: nat)

  /** The first len bytes are pieces that stand for their characters. */
  ghost predicate Pieces(s: Bytes, ps: seq<Piece>, len: nat)
    decreases |ps|
  {
    if ps == [] then len == 0
    else
      0 < ps[0].len <= len <= |s| && Stands(s[..ps[0].len], ps[0].c) && Pieces(s[ps[0].len..], ps[1..], len - ps[0].len)
  }

  /** The characters in UTF-8. */
  function Encoded(ps: seq<Piece>): Bytes {
    if ps == [] then [] else IntToUtf8(ps[0].c) + Encoded(ps[1..])
  }

  lemma {:induction false} PiecesCopied(s: Bytes, ps: seq<Piece>, len: nat)
    requires Pieces(s, ps, len)
    ensures CopyLoop(s, len) == (true, Encoded(ps))
    decreases |ps|
  {
    hide GetChar, Stands, IntToUtf8;
    if ps != [] {
      var k := ps[0].len;
      GetCharIff(s, ps[0].c, k);
      PiecesCopied(s[k..], ps[1..], len - k);
      CharCopied(s, ps[0].c, k);
    }
  }

  /** A character read from one byte is that byte. */
  lemma CharCopied(s: Bytes, c: int, k: nat)
    requires GetChar(s) == (c, k) && c > 0
    ensures (if k == 1 then [c] else IntToUtf8(c)) == IntToUtf8(c)
    ensures k == 1 ==> c < 0x80
  {
    hide GetChar;
    GetCharShort(s);
  }

  lemma GetCharShort(s: Bytes)
    ensures GetChar(s).0 > 0 && GetChar(s).1 == 1 ==> GetChar(s).0 < 0x80
  {
  }

  lemma {:induction false} CopiedPieces(s: Bytes, len: nat) returns (ps: seq<Piece>)
    requires CopyLoop(s, len).0 && len <= |s|
    ensures Pieces(s, ps, len)
    decreases len
  {
    hide GetChar, Stands, IntToUtf8;
    ps := [];
    if len > 0 {
      var (c, k) := GetChar(s);
      GetCharSome(s);
      Remains(s[k..], len - k);
      GetCharIff(s, c, k);
      var rest := CopiedPieces(s[k..], len - k);
      ps := [Piece(c, k)] + rest;
      assert ps[1..] == rest;
    }
  }

  lemma GetCharSome(s: Bytes)
    ensures GetChar(s).0 > 0 ==> 0 < GetChar(s).1 <= |s|
  {
  }

  lemma Remains(s: Bytes, len: int)
    ensures CopyLoop(s, len).0 ==> len >= 0
  {
  }

  /** Bytes are copied as text if and only if they consist of such pieces, and what is copied are their characters. */
  lemma CopyIff(s: Bytes, len: nat)
    requires 0 < len <= |s|
    ensures CopyToken(s, len).0 <==> exists ps :: Pieces(s, ps, len)
    ensures forall ps | Pieces(s, ps, len) :: CopyToken(s, len) == (true, Encoded(ps))
  {
    hide CopyLoop, Pieces;
    forall ps | Pieces(s, ps, len)
      ensures CopyToken(s, len) == (true, Encoded(ps))
    {
      PiecesCopied(s, ps, len);
    }
    if CopyToken(s, len).0 {
      var ps := CopiedPieces(s, len);
    }
  }
}
