/**
 * More the parser refuses, from any state: tags that are none, declarations in the wrong place, and markup that does not
 * end (src/ixml/ixmlparser.c:1287-1578, 1972-2018, 2052-2100, 2322-2508).
 */
module MarkupRefusals {
  import opened CStrings
  import opened Utf8
  import opened XmlChars
  import opened Escape
  import opened XmlTree
  import opened Lexer
  import opened Parser
  import opened TokenLemmas
  import opened References
  import opened Sources
  import opened SourceSteps
  import opened Tolerance

  // ---- declarations ----

  /** `<?xml` in any case, and a space or `?`. */
  predicate Declares(s: Bytes) {
    |s| >= 6 && s[0] == 0x3C && s[1] == 0x3F && s[2] in {0x78, 0x58} && s[3] in {0x6D, 0x4D} && s[4] in {0x6C, 0x4C}
    && s[5] in {0x20, 0x3F}
  }

  lemma DeclaresIff(s: Bytes)
    ensures Declares(s) <==> IsXmlDecl(s)
  {
    assert forall b: Byte :: (Lower(b) == 0x78 <==> b in {0x78, 0x58}) && (Lower(b) == 0x6D <==> b in {0x6D, 0x4D});
    assert forall b: Byte :: Lower(b) == 0x6C <==> b in {0x6C, 0x4C};
    assert forall b: Byte :: (Lower(b) == 0x3C <==> b == 0x3C) && (Lower(b) == 0x3F <==> b == 0x3F);
    assert forall b: Byte :: Lower(b) == 0x20 <==> b == 0x20;
    if Declares(s) && s[5] == 0x20 {
      assert StartsWithNoCase(s, XMLDECL);
    } else if Declares(s) {
      assert StartsWithNoCase(s, XMLDECL2);
    }
    if StartsWithNoCase(s, XMLDECL) {
      Six(s, XMLDECL);
    } else if StartsWithNoCase(s, XMLDECL2) {
      Six(s, XMLDECL2);
    }
  }

  lemma Six(s: Bytes, key: Bytes)
    requires |key| == 6 && StartsWithNoCase(s, key)
    ensures |s| >= 6 && Lower(s[0]) == Lower(key[0]) && Lower(s[1]) == Lower(key[1]) && Lower(s[2]) == Lower(key[2])
    ensures Lower(s[3]) == Lower(key[3]) && Lower(s[4]) == Lower(key[4]) && Lower(s[5]) == Lower(key[5])
  {
  }

  /** An XML declaration behind the beginning of the document is refused. */
  lemma LateDeclaration(p: State, w: Bytes, s: Bytes)
    requires Gap(w) && Declares(s) && p.rest == w + s
    ensures GetNextNode(p) == Failed
  {
    hide SkipWhite, IsXmlDecl, TokenLength, CopyToken;
    DeclaresIff(s);
    GapWhite(w);
    SkipWhiteRun(w, s);
    SkipWhiteRun([], s);
    assert [] + s == s;
    if p.mode.ContentMode? {
      assert CDSTART[1] != s[1] && BEGIN_COMMENT[1] != s[1];
    } else {
      NotComment(s);
      assert SkipMisc(s) == (false, s);
      assert GetNextToken(s) == Token(0, [], s, None);
      NextTokenIs(p.(rest := s), Token(0, [], s, None));
      assert p.(rest := SkipWhite(p.rest)) == p.(rest := s);
    }
  }

  lemma NotComment(s: Bytes)
    requires |s| > 1 && s[1] != 0x21
    ensures !StartsWithNoCase(s, BEGIN_COMMENT)
  {
    assert Lower(BEGIN_COMMENT[1]) == 0x21;
  }

  // ---- tags ----

  /** What is no token: nothing is copied and curPtr stays there. */
  lemma NoToken(p: State, gap: Bytes, s: Bytes)
    requires !p.mode.ContentMode? && Gap(gap) && p.rest == gap + s && StartsToken(s)
    requires TokenLength(s) in {None, Some(0)}
    ensures GetNextNode(p) == Failed
  {
    hide TokenLength, SkipMisc, AfterToken;
    GapWhite(gap);
    GapSkipped(gap, s);
    GapSkipped([], s);
    assert [] + s == s;
    NextTokenIs(p.(rest := s), GetNextToken(s));
    assert p.(rest := SkipWhite(p.rest)) == p.(rest := s);
  }

  /** A `<` in front of what is no name, `/`, `!` or `?` is refused. */
  lemma TagNeedsName(p: State, gap: Bytes, s: Bytes)
    requires !p.mode.ContentMode? && Gap(gap) && p.rest == gap + ([0x3C] + s)
    requires s != [] && s[0] < 0x80 && s[0] !in {0x21, 0x2F, 0x3A, 0x3F, 0x5F}
    requires !(0x41 <= s[0] <= 0x5A) && !(0x61 <= s[0] <= 0x7A)
    ensures GetNextNode(p) == Failed
  {
    var t := [0x3C] + s;
    AsciiNameChars(s[0]);
    assert t[1..] == s && TokenLength(t) == None by {
      hide IsNameChar;
    }
    NoToken(p, gap, t);
  }

  /** A `/` without `>` is refused. */
  lemma SlashAlone(p: State, gap: Bytes, s: Bytes)
    requires !p.mode.ContentMode? && Gap(gap) && p.rest == gap + ([0x2F] + s) && At(s, 0) != 0x3E
    ensures GetNextNode(p) == Failed
  {
    var t := [0x2F] + s;
    assert At(t, 1) == At(s, 0);
    NoToken(p, gap, t);
  }

  /** A name outside tags is refused. */
  lemma NameOutsideTags(p: State, gap: Bytes, name: Bytes, r: Bytes)
    requires p.mode.ElementMode? && Gap(gap) && ValidName(name) && EndsName(r) && p.rest == gap + (name + r)
    ensures GetNextNode(p) == Failed
  {
    hide GetNextToken, ValidName, Gap, EndsName, ProcessSTag, ProcessETag, ProcessAttribute, NextToken;
    NameFirstByte(name);
    assert (name + r)[0] == name[0];
    NameAhead(p, gap, name, r);
  }

  /** `=` or a quote where an attribute name should stand is refused. */
  lemma NoAttributeName(p: State, gap: Bytes, b: Byte, r: Bytes)
    requires !p.mode.ContentMode? && Gap(gap) && b in {0x22, 0x27, 0x3D} && p.rest == gap + ([b] + r)
    ensures GetNextNode(p) == Failed
  {
    hide GetNextToken, Gap, ProcessSTag, ProcessETag, IsNameChar;
    GapInFront(p, gap, [b] + r);
    var q := p.(rest := [b] + r);
    assert SkipWhite(q.rest) == q.rest;
    PunctToken(b, r);
    NextTokenIs(q, Token(1, [b], r, None));
    assert q.(rest := SkipWhite(q.rest)) == q;
    AsciiNameChars(b);
    assert Utf8ToInt([b]).0 == b;
  }

  /** `/>` in front of all tags is refused. */
  lemma EmptyTagFirst(p: State, gap: Bytes, r: Bytes)
    requires !p.mode.ContentMode? && Gap(gap) && p.rest == gap + ([0x2F, 0x3E] + r) && p.lastElem == []
    ensures GetNextNode(p) == Failed
  {
    hide GetNextToken, Gap, ProcessSTag, ProcessETag, ProcessAttribute;
    var q := p.(rest := COMPLETETAG + r);
    assert [0x2F, 0x3E] == COMPLETETAG;
    GapInFront(p, gap, COMPLETETAG + r);
    assert SkipWhite(q.rest) == q.rest;
    EmptyTagToken(r);
    NextTokenIs(q, Token(2, COMPLETETAG, r, Some(COMPLETETAG + r)));
    assert q.(rest := SkipWhite(q.rest)) == q;
  }

  /** A start tag directly behind an attribute is refused, where an end tag is not. */
  lemma TagInAttributes(p: State, a: Written, gap: Bytes, name: Bytes, r: Bytes)
    requires p.mode.AttributeMode? && p.stack != [] && LegalAttr(a) && Gap(gap) && ValidName(name)
    requires p.rest == AttrBytes(a, gap + ([0x3C] + (name + r)))
    ensures GetNextNode(p) in {Failed, NullAccess}
  {
    hide GetNextNode, LegalAttr, Meant, NextToken, Gap, AttrBytes, ValidName;
    var s := [0x3C] + (name + r);
    var q := AttributeStep(p, a, gap + s);
    var step := XmlNamespace(q, a.name, Meant(a.value));
    if step.Ok? {
      NameFirstByte(name);
      assert s[1] == name[0] && [0x3C] + name <= s;
      TagToken(step.st.(save := step.st.rest), gap, s, name);
    }
  }

  // ---- markup that does not end ----

  /** A comment or an instruction that does not end is refused in content. */
  lemma ContentUnended(p: State, w: Bytes, s: Bytes)
    requires p.mode.ContentMode? && Gap(w) && p.rest == w + s
    requires ([0x3C, 0x21, 0x2D, 0x2D] <= s && Find(s, [0x2D, 0x2D, 0x3E]) == None)
             || ([0x3C, 0x3F] <= s && Find(s, [0x3F, 0x3E]) == None)
    ensures GetNextNode(p) == Failed
  {
    hide SkipWhite, Find, IsXmlDecl;
    GapWhite(w);
    SkipWhiteRun(w, s);
    assert !(CDSTART <= s) by {
      if [0x3C, 0x3F] <= s {
        assert s[1] == 0x3F;
      } else {
        assert s[2] == 0x2D;
      }
    }
    if [0x3C, 0x3F] <= s {
      assert s[1] == 0x3F && BEGIN_COMMENT[1] != s[1];
      assert StartsWithNoCase(s, BEGIN_PI) by {
        assert s[0] == 0x3C;
      }
    }
  }

  /** Outside content a comment that does not end is refused too. */
  lemma CommentUnended(p: State, w: Bytes, s: Bytes)
    requires !p.mode.ContentMode? && Gap(w) && p.rest == w + s
    requires [0x3C, 0x21, 0x2D, 0x2D] <= s && Find(s, [0x2D, 0x2D, 0x3E]) == None
    ensures GetNextNode(p) == Failed
  {
    hide Find, AfterToken;
    assert s[0] == 0x3C;
    GapWhite(w);
    SkipWhiteRun(w, s);
    SkipWhiteRun([], s);
    assert [] + s == s;
    assert SkipMisc(s) == (false, s);
    assert GetNextToken(s) == Token(0, [], s, None);
    NextTokenIs(p.(rest := s), Token(0, [], s, None));
    assert p.(rest := SkipWhite(p.rest)) == p.(rest := s);
  }

  /** A value without its second quote is refused. */
  lemma ValueUnended(p: State, gap: Bytes, quote: Byte, s: Bytes)
    requires Gap(gap) && quote in {0x22, 0x27} && quote !in s && p.rest == gap + ([quote] + s)
    ensures AttributeValue(p) == None
  {
    hide GetNextToken, CopyLoop, NoLessThan, Gap, Find;
    GapWhite(gap);
    GapToken(gap, [quote] + s);
    PunctToken(quote, s);
    NextTokenIs(p, Token(1, [quote], s, None));
    NotFound(s, quote);
  }

  lemma {:induction false} NotFound(s: Bytes, b: Byte)
    requires b !in s
    ensures Find(s, [b]) == None
  {
    if s != [] {
      NotFound(s[1..], b);
      assert s[0] != b && [b][0] == b;
    }
  }

  /** A section is refused if it is empty, or if the input ends in it. */
  lemma SectionRefused(p: State, w: Bytes, v: Bytes)
    requires p.mode.ContentMode? && Gap(w)
    requires p.rest == w + ([0x3C, 0x21, 0x5B, 0x43, 0x44, 0x41, 0x54, 0x41, 0x5B] + v)
    requires [0x5D, 0x5D, 0x3E] <= v || ValidCData(v)
    ensures GetNextNode(p) == Failed
  {
    hide SkipWhite, ValidCData, CDataLength;
    var s := CDSTART + v;
    GapWhite(w);
    SkipWhiteRun(w, s);
    assert s[9..] == v;
    if ValidCData(v) {
      AllRead(v);
    } else {
      NothingRead(v);
    }
  }

  lemma NothingRead(v: Bytes)
    requires [0x5D, 0x5D, 0x3E] <= v
    ensures CDataLength(v) == 0
  {
  }

  lemma AllRead(v: Bytes)
    requires ValidCData(v)
    ensures CDataLength(v) == |v|
  {
    hide CDataLength;
    RunRead(v);
  }

  lemma {:induction false} RunRead(v: Bytes)
    requires forall i | 0 <= i < |v| :: 0x20 <= v[i] < 0x80 || v[i] in {0x09, 0x0A, 0x0D}
    requires forall i | 0 <= i < |v| :: !([0x5D, 0x5D, 0x3E] <= v[i..])
    ensures CDataLength(v) == |v|
  {
    if v != [] {
      forall i | 0 <= i < |v[1..]|
        ensures !([0x5D, 0x5D, 0x3E] <= v[1..][i..])
      {
        assert v[1..][i..] == v[i + 1..];
      }
      RunRead(v[1..]);
      assert v[0..] == v;
    }
  }

  // ---- in front of the root ----

  /** A declaration that does not end, or is not written `<?xml `, is refused. */
  lemma DeclarationRefused(w: Bytes, s: Bytes)
    requires Gap(w) && Declares(s)
    requires [0x3C, 0x3F, 0x78, 0x6D, 0x6C, 0x20] <= s ==> Find(s, [0x3F, 0x3E]) == None
    ensures Parse(w + s) == SyntaxError
  {
    hide SkipWhite, IsXmlDecl, Find, ParseLoop;
    DeclaresIff(s);
    GapWhite(w);
    SkipWhiteRun(w, s);
    if !(XMLDECL <= s) {
      NotComment(s);
      assert SkipMisc(s) == (false, SkipWhite(s));
    }
  }

  lemma {:induction false} TypeUnended(s: Bytes, n: nat)
    requires 0x3E !in s && n > 0
    ensures SkipDocType(s, n) == None
    decreases |s|
  {
    if s != [] {
      if s[0] == 0x22 && Find(s[1..], [0x22]).Some? {
        TypeUnended(s[1..][Find(s[1..], [0x22]).value + 1..], n);
      } else {
        TypeUnended(s[1..], if s[0] == 0x3C then n + 1 else n);
      }
    }
  }

  /** So is a document type without `>`. */
  lemma TypeRefused(w: Bytes, s: Bytes)
    requires Gap(w) && 0x3E !in s
    ensures Parse(w + ([0x3C, 0x21, 0x44, 0x4F, 0x43, 0x54, 0x59, 0x50, 0x45] + s)) == SyntaxError
  {
    hide SkipWhite, Find, ParseLoop, IsXmlDecl;
    var t := BEGIN_DOCTYPE + s;
    GapWhite(w);
    SkipWhiteRun(w, t);
    SkipWhiteRun([], t);
    assert [] + t == t;
    assert t[1] == 0x21 && t[2] == 0x44;
    assert SkipMisc(t) == (true, t) by {
      NoMiscType(t);
    }
    TypeUnended(t[1..], 1);
  }

  lemma NoMiscType(t: Bytes)
    requires |t| > 2 && t[0] == 0x3C && t[1] == 0x21 && t[2] == 0x44 && SkipWhite(t) == t
    ensures SkipMisc(t) == (true, t)
  {
    assert Lower(t[1]) != Lower(XMLDECL[1]) && Lower(t[1]) != Lower(XMLDECL2[1]) && Lower(t[1]) != Lower(BEGIN_PI[1]);
    assert Lower(t[2]) != Lower(BEGIN_COMMENT[2]);
  }
}
