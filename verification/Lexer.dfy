/**
 * The scanning half of the XML parser: comments, processing instructions, DOCTYPE, and the token
 * reader Parser_getNextToken (src/ixml/ixmlparser.c:1287-1579).
 */
module Lexer {
  import opened CStrings
  import opened Utf8
  import opened XmlChars
  import opened Escape

  const XMLDECL: Bytes := [0x3C, 0x3F, 0x78, 0x6D, 0x6C, 0x20]                          // <?xml_
  const XMLDECL2: Bytes := [0x3C, 0x3F, 0x78, 0x6D, 0x6C, 0x3F]                         // <?xml?
  const BEGIN_COMMENT: Bytes := [0x3C, 0x21, 0x2D, 0x2D]                                // <!--
  const END_COMMENT: Bytes := [0x2D, 0x2D, 0x3E]                                        // -->
  const BEGIN_PI: Bytes := [0x3C, 0x3F]                                                 // <?
  const END_PI: Bytes := [0x3F, 0x3E]                                                   // ?>
  const BEGIN_DOCTYPE: Bytes := [0x3C, 0x21, 0x44, 0x4F, 0x43, 0x54, 0x59, 0x50, 0x45]  // <!DOCTYPE
  const ENDTAG: Bytes := [0x3C, 0x2F]                                                   // </
  const COMPLETETAG: Bytes := [0x2F, 0x3E]                                              // />

  /** Parser_skipString: the suffix behind the key, or None when the key does not occur. */
  function SkipString(s: Bytes, key: Bytes): (r: Option<Bytes>)
    ensures r.Some? && key != [] ==> |r.value| < |s|
  {
    match Find(s, key)
    case None => None
    case Some(k) => Some(s[k + |key|..])
  }

  /** Parser_skipComment: a comment must not end in `--->`. */
  function SkipComment(s: Bytes): (r: Option<Bytes>)
    ensures r.Some? ==> |r.value| < |s|
  {
    match Find(s, END_COMMENT)
    case None => None
    case Some(k) => if k != 0 && s[k - 1] != 0x2D then Some(s[k + 3..]) else None
  }

  predicate IsXmlDecl(s: Bytes) {
    StartsWithNoCase(s, XMLDECL) || StartsWithNoCase(s, XMLDECL2)
  }

  /** Parser_skipPI */
  function SkipPI(s: Bytes): (r: Option<Bytes>)
    ensures r.Some? && BEGIN_PI <= s ==> |r.value| < |s|
  {
    if IsXmlDecl(s) then None
    else if StartsWithNoCase(s, BEGIN_PI) then
      match Find(s, END_PI)
      case None => None
      case Some(k) => if k != 0 then Some(s[k + 2..]) else None
    else Some(s)
  }

  /** Parser_skipMisc: the return code and where curPtr is left, also on failure. */
  function SkipMisc(s: Bytes): (r: (bool, Bytes))
    ensures |r.1| <= |s|
    decreases |s|
  {
    if StartsWithNoCase(s, BEGIN_COMMENT) then
      match SkipComment(s)
      case None => (false, SkipWhite(s))
      case Some(t) => SkipMisc(SkipWhite(t))
    else if IsXmlDecl(s) then (false, SkipWhite(s))
    else if StartsWithNoCase(s, BEGIN_PI) then
      match SkipString(s, END_PI)
      case None => (false, [])
      case Some(t) => SkipMisc(SkipWhite(t))
    else (true, SkipWhite(s))
  }

  /** Parser_skipDocType: brackets are counted, quoted strings jumped over. */
  function SkipDocType(s: Bytes, num: nat): (r: Option<Bytes>)
    ensures r.Some? ==> |r.value| <= |s|
    decreases |s|
  {
    if num == 0 then Some(s)
    else if s == [] then None
    else if s[0] == 0x3C then SkipDocType(s[1..], num + 1)
    else if s[0] == 0x3E then SkipDocType(s[1..], num - 1)
    else if s[0] == 0x22 then
      match Find(s[1..], [0x22])
      case None => None
      case Some(k) => SkipDocType(s[1..][k + 1..], num)
    else SkipDocType(s[1..], num)
  }

  /** Parser_skipProlog */
  function SkipProlog(input: Bytes): Option<Bytes> {
    var s := SkipWhite(input);
    var decl := if XMLDECL <= s then SkipString(s, END_PI) else Some(s);
    if decl.None? then None
    else
      var t := if XMLDECL <= s then SkipWhite(decl.value) else s;
      var (ok, u) := SkipMisc(t);
      if !ok then None
      else
        var afterType := if BEGIN_DOCTYPE <= u then SkipDocType(u[1..], 1) else Some(u);
        if afterType.None? then None
        else
          var (ok2, v) := SkipMisc(afterType.value);
          if ok2 then Some(v) else None
  }

  /** The loop that measures a name token: the bytes of the name characters s starts with. */
  function NameRun(s: Bytes): (r: nat)
    ensures r <= |s|
    decreases |s|
  {
    var (c, n) := Utf8ToInt(s);
    if IsNameChar(c, true) then n + NameRun(s[n..]) else 0
  }

  /** The length of the token at s; None where Parser_getNextToken returns 0 without copying. */
  function TokenLength(s: Bytes): (r: Option<nat>)
    ensures r.Some? ==> r.value <= |s|
  {
    var b := At(s, 0);
    if b == 0x22 || b == 0x27 || b == 0x3D || b == 0x3E then Some(1)
    else if b == 0x3C then
      var c := Utf8ToInt(s[1..]).0;
      if c == 0x2F then Some(2)
      else if IsNameChar(c, false) then Some(1)
      else None
    else if b == 0x2F then
      Some(if At(s, 1) == 0x3E then 2 else 0)
    else
      var (c, n) := Utf8ToInt(s);
      if IsNameChar(c, false) then Some(n + NameRun(s[n..])) else None
  }

  /** Reading a character that is not an `&` is plain decoding when the result is an XML character. */
  lemma GetCharPlain(s: Bytes)
    requires At(s, 0) != 0x26 && IsXmlChar(Utf8ToInt(s).0)
    ensures GetChar(s) == Utf8ToInt(s)
  {
  }

  /** Copying the next character and then `len` more bytes. */
  lemma CopyFirst(s: Bytes, len: nat)
    requires At(s, 0) != 0x26 && IsXmlChar(Utf8ToInt(s).0)
    requires CopyLoop(s[Utf8ToInt(s).1..], len).0
    ensures CopyLoop(s, Utf8ToInt(s).1 + len).0 && CopyLoop(s, Utf8ToInt(s).1 + len).1 != []
  {
    hide Utf8ToInt, IntToUtf8, GetChar;
    GetCharPlain(s);
  }

  /** A run of name characters is copied without failure. */
  lemma {:induction false} CopyNameRun(s: Bytes)
    ensures CopyLoop(s, NameRun(s)).0
    decreases |s|
  {
    hide Utf8ToInt, IsNameChar, GetChar;
    var (c, n) := Utf8ToInt(s);
    if IsNameChar(c, true) {
      NameStartByte(s, true);
      CopyNameRun(s[n..]);
      CopyFirst(s, NameRun(s[n..]));
    }
  }

  /** A name character does not start with the byte `&`. */
  lemma NameStartByte(s: Bytes, b: bool)
    requires IsNameChar(Utf8ToInt(s).0, b)
    ensures At(s, 0) != 0x26 && At(s, 0) > 0
  {
    hide IsNameChar;
  }

  /** The bytes `<` and an overlong `/`: the token is measured as `</` but cannot be copied. */
  predicate OverlongEndTag(s: Bytes) {
    At(s, 0) == 0x3C && At(s, 1) != 0x2F && Utf8ToInt(s[1..]).0 == 0x2F
  }

  /** Copying a token never fails half-way, except for an overlong `</`. */
  lemma TokenCopies(s: Bytes)
    requires TokenLength(s).Some?
    ensures CopyToken(s, TokenLength(s).value).0 <==> TokenLength(s).value > 0 && !OverlongEndTag(s)
    ensures CopyToken(s, TokenLength(s).value).1 == [] <==> TokenLength(s).value == 0
    ensures OverlongEndTag(s) ==> CopyToken(s, TokenLength(s).value).1 == ENDTAG
  {
    hide IsNameChar, CopyLoop, Utf8ToInt, GetChar;
    var b, k := At(s, 0), TokenLength(s).value;
    if OverlongEndTag(s) {
      OverlongCopy(s);
    } else if b in {0x22, 0x27, 0x3D, 0x3E, 0x3C, 0x2F} {
      AsciiCopies(s, k);
    } else {
      NameStartByte(s, false);
      var n := Utf8ToInt(s).1;
      CopyNameRun(s[n..]);
      CopyFirst(s, NameRun(s[n..]));
    }
  }

  lemma OverlongCopy(s: Bytes)
    requires OverlongEndTag(s)
    ensures CopyToken(s, 2) == (false, ENDTAG)
    ensures TokenLength(s) == Some(2)
  {
    hide IsNameChar;
    var t := s[1..];
    assert At(t, 0) == At(s, 1);
    assert Utf8ToInt(t).1 > 1;
    assert CopyLoop(t, 1) == (false, [0x2F]) by {
      var n: int := Utf8ToInt(t).1;
      assert At(t, 0) > 127;
      assert GetChar(t) == (0x2F, n);
      assert IntToUtf8(0x2F) + [] == [0x2F];
      assert CopyLoop(t[n..], 1 - n) == (false, []);
    }
    assert GetChar(s) == (0x3C, 1);
    assert [0x3C] + [0x2F] == ENDTAG;
  }

  lemma AsciiCopies(s: Bytes, k: nat)
    requires k <= 2 && k <= |s|
    requires forall i | 0 <= i < k :: 0x20 <= s[i] < 0x80 && s[i] != 0x26
    ensures CopyToken(s, k) == (k > 0, s[..k])
  {
    if k > 0 {
      assert CopyLoop(s[k..], 0) == (true, []);
      assert GetChar(s) == (s[0], 1);
      if k == 2 {
        var t := s[1..];
        assert t[1..] == s[2..];
        assert GetChar(t) == (s[1], 1);
        assert CopyLoop(t[1..], 0) == (true, []);
        assert [s[1]] + [] == [s[1]];
        assert CopyLoop(t, 1) == (true, [s[1]]);
        assert s[..2] == [s[0]] + [s[1]];
      } else {
        assert s[..1] == [s[0]] + [];
      }
    }
  }

  /** What Parser_getNextToken leaves behind: its result, tokenBuf, curPtr, and savePtr if it set it. */
  datatype Token = Token(len: int, tok: Bytes, rest: Bytes, save: Option<Bytes>)

  /** Parser_getNextToken */
  function GetNextToken(input: Bytes): (r: Token)
    ensures |r.rest| <= |input|
    ensures r.len != 0 ==> r.len > 0 && |r.rest| < |input|
    ensures r.len != 0 ==> r.tok != []
    ensures r.len == 0 && r.tok != [] ==> r.tok == ENDTAG && OverlongEndTag(r.rest)
    ensures r.save.Some? ==> |r.rest| <= |r.save.value| <= |input|
  {
    if input == [] then Token(0, [], input, None)
    else
      var (ok, s) := SkipMisc(input);
      if !ok then Token(0, [], s, None)
      else
        match TokenLength(s)
        case None => Token(0, [], s, None)
        case Some(n) =>
          var save := if COMPLETETAG <= s then Some(s) else None;
          var (copied, out) := CopyToken(s, n);
          TokenCopies(s);
          if copied then Token(n, out, s[n..], save) else Token(0, out, s, save)
  }

  /** The token of an overlong `</` is not consumed, and reading on from it fails. */
  lemma OverlongStuck(s: Bytes)
    requires OverlongEndTag(s)
    ensures GetNextToken(s).len == 0
  {
    hide IsNameChar, CopyLoop, Utf8ToInt, GetChar;
    assert SkipMisc(s) == (true, s) by {
      assert s[1] !in {0x21, 0x3F} by {
        OverlongSecond(s);
      }
    }
    OverlongCopy(s);
  }

  lemma OverlongSecond(s: Bytes)
    requires OverlongEndTag(s)
    ensures |s| > 2 && s[1] >= 0x80
  {
    var t := s[1..];
    assert At(t, 0) == At(s, 1);
  }
}
