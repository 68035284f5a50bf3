/**
 * What the parser takes although it is not XML, from any state: the statements are about one round each, like those of
 * SourceSteps (src/ixml/ixmlparser.c:1480-1578, 1840-2018, 2163-2204, 2322-2508).
 */
module Tolerance {
  import opened CStrings
  import opened Escape
  import opened XmlTree
  import opened Lexer
  import opened Namespaces
  import opened Parser
  import opened TokenLemmas
  import opened References
  import opened Sources
  import opened SourceSteps

  /** A gap in front of markup does not matter. */
  lemma GapInFront(p: State, gap: Bytes, s: Bytes)
    requires !p.mode.ContentMode? && Gap(gap) && s != [] && !IsWhite(s[0]) && p.rest == gap + s
    ensures GetNextNode(p) == GetNextNode(p.(rest := s))
  {
    hide NextToken, ProcessSTag, ProcessETag, ProcessAttribute;
    GapWhite(gap);
    SkipWhiteRun(gap, s);
    SkipWhiteRun([], s);
    assert [] + s == s;
    assert p.(rest := SkipWhite(p.rest)) == p.(rest := s).(rest := SkipWhite(s));
  }

  /** A `>` outside tags is skipped. */
  lemma StrayBracket(p: State, gap: Bytes, r: Bytes)
    requires !p.mode.ContentMode? && Gap(gap) && p.rest == gap + ([0x3E] + r)
    ensures Delivers(GetNextNode(p), NoNode, p, r, p.mode, p.need, p.lastElem)
  {
    hide GetNextToken, ProcessSTag, ProcessETag, ProcessAttribute, Gap;
    var q := p.(rest := [0x3E] + r);
    GapInFront(p, gap, [0x3E] + r);
    assert SkipWhite(q.rest) == q.rest;
    PunctToken(0x3E, r);
    NextTokenIs(q, Token(1, [0x3E], r, None));
    assert q.(rest := SkipWhite(q.rest)) == q;
  }

  /** The beginning of a tag: `</`, or `<` and a name. */
  predicate BeginsTag(s: Bytes, name: Bytes) {
    [0x3C, 0x2F] <= s || (ValidName(name) && [0x3C] + name <= s)
  }

  lemma TagToken(p: State, gap: Bytes, s: Bytes, name: Bytes)
    requires BeginsTag(s, name) && Gap(gap) && p.rest == gap + s
    ensures var (n, q) := NextToken(p);
            && n > 0 && q.tok == (if [0x3C, 0x2F] <= s then [0x3C, 0x2F] else [0x3C])
            && q == p.(rest := q.rest, tok := q.tok)
  {
    hide GetNextToken, ValidName, Gap;
    GapWhite(gap);
    if [0x3C, 0x2F] <= s {
      assert s == ENDTAG + s[2..];
      GapToken(gap, s);
      CloseToken(s[2..]);
      NextTokenIs(p, Token(2, ENDTAG, s[2..], None));
    } else {
      NameFirstByte(name);
      var r := s[1 + |name|..];
      assert s == [0x3C] + (name + r) && s[1] == name[0];
      GapToken(gap, s);
      OpenToken(name, r);
      NextTokenIs(p, Token(1, [0x3C], name + r, None));
    }
  }

  lemma TagEndsName(gap: Bytes, s: Bytes)
    requires Gap(gap) && s != [] && s[0] == 0x3C
    ensures EndsName(gap + s)
  {
    if gap != [] {
      assert (gap + s)[0] == gap[0];
    }
  }

  /** A start tag needs no `>` in front of another tag: `<a<b></b></a>` is `<a><b></b></a>`. */
  lemma StartUnclosed(p: State, name: Bytes, gap: Bytes, s: Bytes, inner: Bytes)
    requires !p.mode.ContentMode? && ValidName(name) && Gap(gap) && BeginsTag(s, inner)
    requires p.rest == [0x3C] + (name + (gap + s))
    ensures Delivers(GetNextNode(p), StartElement(name), p, gap + s, AttributeMode, p.need, name)
  {
    hide GetNextToken, ValidName, NextToken, BeginsTag, Gap, GetNextNode;
    assert s != [] && s[0] == 0x3C by {
      BeginsBracket(s, inner);
    }
    TagEndsName(gap, s);
    OpenDispatch(p, name, gap + s);
    var p0 := p.(rest := name + (gap + s), tok := [0x3C]);
    NameToken(name, gap + s);
    NextTokenIs(p0, Token(|name|, name, gap + s, None));
    NameFirstByte(name);
    var p1 := NextToken(p0).1;
    TagToken(p1.(lastElem := p1.tok, save := p1.rest), gap, s, inner);
  }

  lemma BeginsBracket(s: Bytes, name: Bytes)
    requires BeginsTag(s, name)
    ensures s != [] && s[0] == 0x3C
  {
    hide ValidName;
  }

  /** White space may stand on both sides of the name in an end tag, and in front of it. */
  lemma EndTagSpaced(p: State, before: Bytes, left: Bytes, name: Bytes, right: Bytes, r: Bytes)
    requires !p.mode.ContentMode? && ValidName(name) && Gap(before) && Gap(left) && Gap(right)
    requires p.rest == before + ([0x3C, 0x2F] + (left + (name + (right + ([0x3E] + r)))))
    ensures Delivers(GetNextNode(p), EndElement(name), p, r, p.mode, p.need, p.lastElem)
  {
    hide GetNextToken, ValidName, ProcessSTag, ProcessAttribute, ProcessETag, Gap;
    var tail := name + (right + ([0x3E] + r));
    assert [0x3C, 0x2F] == ENDTAG;
    GapInFront(p, before, ENDTAG + (left + tail));
    var q := p.(rest := ENDTAG + (left + tail));
    assert SkipWhite(q.rest) == q.rest;
    CloseToken(left + tail);
    NextTokenIs(q, Token(2, ENDTAG, left + tail, None));
    assert q.(rest := SkipWhite(q.rest)) == q;
    var p1 := NextToken(q).1;
    assert GetNextNode(q) == ProcessETag(p1);
    SpacedName(p1, left, name, right, r);
  }

  lemma SpacedName(p: State, left: Bytes, name: Bytes, right: Bytes, r: Bytes)
    requires ValidName(name) && Gap(left) && Gap(right) && p.rest == left + (name + (right + ([0x3E] + r)))
    ensures Delivers(ProcessETag(p), EndElement(name), p, r, p.mode, p.need, p.lastElem)
  {
    hide GetNextToken, ValidName, Gap;
    var tail := right + ([0x3E] + r);
    var q := p.(rest := name + tail);
    NameFirstByte(name);
    AheadEndsName(tail, Bracket(right, r));
    assert (name + tail)[0] == name[0];
    GapWhite(left);
    GapToken(left, name + tail);
    NextTokenIs(p, GetNextToken(p.rest));
    NextTokenIs(q, GetNextToken(q.rest));
    EndTagName(q, name, right, r);
  }

  /** An attribute with an end tag and no `>` behind it; the end tag is read next. */
  lemma AttributeUnclosed(p: State, a: Written, gap: Bytes, s: Bytes)
    requires p.mode.AttributeMode? && p.stack != [] && LegalAttr(a) && Gap(gap) && [0x3C, 0x2F] <= s
    requires p.rest == AttrBytes(a, gap + s)
    ensures var step := GetNextNode(p);
            match ResolveNeed(p.need, DeclareTop(p.stack, a.name, Meant(a.value)))
            case Resolved(_) =>
              step.Ok? && step.ev == Attribute(a.name, Meant(a.value)) && step.st.mode.AttributeMode? && step.st.rest == gap + s
            case Refused => step == Failed
            case NullString => step == NullAccess
  {
    hide GetNextNode, LegalAttr, Meant, NextToken, Gap, AttrBytes;
    var q := AttributeStep(p, a, gap + s);
    var step := XmlNamespace(q, a.name, Meant(a.value));
    if step.Ok? {
      TagToken(step.st.(save := step.st.rest), gap, s, []);
    }
  }

  /**
   * A CDATA section with a byte that is not ASCII, or no character, ends in front of it, and the parser goes on
   * behind the third byte from there.
   */
  lemma SectionCutShort(p: State, w: Bytes, v: Bytes, b: Byte, r: Bytes)
    requires p.mode.ContentMode? && Gap(w) && ValidCData(v)
    requires b >= 0x80 || (b < 0x20 && b !in {0x09, 0x0A, 0x0D})
    requires p.rest == w + ([0x3C, 0x21, 0x5B, 0x43, 0x44, 0x41, 0x54, 0x41, 0x5B] + (v + ([b] + r)))
    ensures Delivers(GetNextNode(p), CDataNode(v), p, if |r| >= 2 then r[2..] else [], ContentMode, p.need, p.lastElem)
  {
    hide CDataLength, SkipWhite, ValidCData;
    var t := v + ([b] + r);
    var s := CDSTART + t;
    GapWhite(w);
    SkipWhiteRun(w, s);
    assert s[9..] == t;
    ValidCutShort(v, b, r);
    assert t[..|v|] == v && (|r| >= 2 ==> t[|v| + 3..] == r[2..]);
    assert ProcessCDSect(s) == Some((v, if |r| >= 2 then r[2..] else []));
  }

  lemma ValidCutShort(v: Bytes, b: Byte, r: Bytes)
    requires ValidCData(v) && (b >= 0x80 || (b < 0x20 && b !in {0x09, 0x0A, 0x0D}))
    ensures v != [] && CDataLength(v + ([b] + r)) == |v|
  {
    CutShort(v, b, r);
  }

  lemma {:induction false} CutShort(v: Bytes, b: Byte, r: Bytes)
    requires forall i | 0 <= i < |v| :: 0x20 <= v[i] < 0x80 || v[i] in {0x09, 0x0A, 0x0D}
    requires forall i | 0 <= i < |v| :: !([0x5D, 0x5D, 0x3E] <= v[i..])
    requires b >= 0x80 || (b < 0x20 && b !in {0x09, 0x0A, 0x0D})
    ensures CDataLength(v + ([b] + r)) == |v|
  {
    var s := v + ([b] + r);
    if v == [] {
      assert s[0] == b;
    } else {
      assert s[1..] == v[1..] + ([b] + r);
      forall i | 0 <= i < |v[1..]|
        ensures !([0x5D, 0x5D, 0x3E] <= v[1..][i..])
      {
        assert v[1..][i..] == v[i + 1..];
      }
      CutShort(v[1..], b, r);
      assert v[0..] == v;
      assert s[0] == v[0] && s[|v|] == b;
      assert if |v| >= 3 then s[..3] == v[..3] else s[|v|] != CDEND[|v|];
    }
  }

  /** An instruction that does not end is the end of the document if no element is open, and else an error. */
  lemma InstructionUnended(p: State, gap: Bytes, c: Bytes)
    requires !p.mode.ContentMode? && Gap(gap) && p.rest == gap + ([0x3C, 0x3F] + c)
    requires Find([0x3C, 0x3F] + c, [0x3F, 0x3E]) == None && !IsXmlDecl([0x3C, 0x3F] + c)
    ensures if p.stack == [] then Delivers(GetNextNode(p), NoNode, p, [], p.mode, p.need, p.lastElem)
            else GetNextNode(p) == Failed
  {
    hide IsXmlDecl, Find, GetNextToken, Gap, AfterToken;
    var s := [0x3C, 0x3F] + c;
    GapInFront(p, gap, s);
    var q := p.(rest := s);
    assert SkipWhite(s) == s;
    UnendedToken(c);
    NextTokenIs(q, Token(0, [], [], None));
    assert q.(rest := SkipWhite(q.rest)) == q;
  }

  lemma UnendedToken(c: Bytes)
    requires Find([0x3C, 0x3F] + c, [0x3F, 0x3E]) == None && !IsXmlDecl([0x3C, 0x3F] + c)
    ensures GetNextToken([0x3C, 0x3F] + c) == Token(0, [], [], None)
  {
    hide IsXmlDecl, Find, TokenLength, CopyToken;
    var s := [0x3C, 0x3F] + c;
    assert s[..2] == BEGIN_PI && s[0] == 0x3C && s[1] == 0x3F;
    assert SkipMisc(s) == (false, []);
  }

  /** An end tag with no element open is looked up in an empty stack. */
  lemma EndOfNothing(p: State, name: Bytes, gap: Bytes, r: Bytes)
    requires !p.mode.ContentMode? && p.stack == [] && ValidName(name) && Gap(gap)
    requires p.rest == [0x3C, 0x2F] + (name + (gap + ([0x3E] + r)))
    ensures ParseLoop(p) == NullDereference
  {
    hide GetNextNode, ValidName, Gap;
    EndTag(p, name, gap, r);
  }
}
