/**
 * One round of Parser_getNextNode on each kind of markup, however it is written.
 */
module SourceSteps {
  import opened CStrings
  import opened Utf8
  import opened XmlChars
  import opened Escape
  import opened XmlTree
  import opened Lexer
  import opened Namespaces
  import opened Parser
  import opened TokenLemmas
  import opened References
  import opened Sources

  /** q differs from p at most in savePtr, tokenBuf and the fields given. */
  predicate Moved(p: State, q: State, rest: Bytes, mode: Mode, need: Option<Bytes>, last: Bytes) {
    q == p.(rest := rest, mode := mode, need := need, lastElem := last, save := q.save, tok := q.tok)
  }

  /** `step` delivers ev and leaves a state that differs from p only as Moved allows. */
  predicate Delivers(step: Step, ev: Event, p: State, rest: Bytes, mode: Mode, need: Option<Bytes>, last: Bytes) {
    step.Ok? && step.ev == ev && Moved(p, step.st, rest, mode, need, last)
  }

  lemma NextTokenIs(p: State, t: Token)
    requires GetNextToken(p.rest) == t
    ensures NextToken(p) == (t.len, p.(rest := t.rest, tok := t.tok, save := if t.save.Some? then t.save.value else p.save))
  {
    hide GetNextToken;
  }

  lemma GapWhite(w: Bytes)
    requires Gap(w)
    ensures AllWhite(w)
  {
  }

  // ---- start tags ----

  /** What stands behind a name in a start tag, or behind an attribute: a gap, and `>`, `/>` or a name. */
  datatype Follow = Bracket(gap: Bytes, tail: Bytes) | Slash(gap: Bytes, tail: Bytes) | More(gap: Bytes, name: Bytes, tail: Bytes)

  predicate Ahead(r: Bytes, f: Follow) {
    && Gap(f.gap)
    && match f
       case Bracket(gap, tail) => r == gap + ([0x3E] + tail)
       case Slash(gap, tail) => r == gap + ([0x2F, 0x3E] + tail)
       case More(gap, name, tail) => r == gap + (name + tail) && ValidName(name) && EndsName(tail)
  }

  /** Where the read-ahead leaves curPtr. */
  function Behind(f: Follow, r: Bytes): Bytes {
    match f
    case Bracket(_, tail) => tail
    case Slash(_, tail) => [0x2F, 0x3E] + tail
    case More(_, _, _) => r
  }

  lemma AheadEndsName(r: Bytes, f: Follow)
    requires Ahead(r, f) && (f.More? ==> f.gap != [])
    ensures EndsName(r)
  {
    hide ValidName;
    if f.gap != [] {
      assert r[0] == f.gap[0];
    } else {
      assert f.Bracket? ==> r[0] == 0x3E;
      assert f.Slash? ==> r[0] == 0x2F;
    }
  }

  /** The token of the read-ahead. */
  lemma AheadToken(p: State, r: Bytes, f: Follow)
    requires p.rest == r && Ahead(r, f)
    ensures var (n, q) := NextToken(p);
            && n > 0 && q == p.(rest := q.rest, tok := q.tok, save := q.save)
            && match f
               case Bracket(_, tail) => q.tok == [0x3E] && q.rest == tail && q.save == p.save
               case Slash(_, tail) => q.tok == COMPLETETAG && q.save == [0x2F, 0x3E] + tail
               case More(_, name, _) => q.tok == name && q.save == p.save && name[0] !in {0x2F, 0x3C, 0x3E}
  {
    hide GetNextToken, ValidName;
    GapWhite(f.gap);
    match f
    case Bracket(gap, tail) =>
      GapToken(gap, [0x3E] + tail);
      PunctToken(0x3E, tail);
      NextTokenIs(p, Token(1, [0x3E], tail, None));
    case Slash(gap, tail) =>
      assert [0x2F, 0x3E] == COMPLETETAG;
      GapToken(gap, COMPLETETAG + tail);
      EmptyTagToken(tail);
      NextTokenIs(p, Token(2, COMPLETETAG, tail, Some(COMPLETETAG + tail)));
    case More(gap, name, tail) =>
      NameFirstByte(name);
      assert (name + tail)[0] == name[0];
      GapToken(gap, name + tail);
      NameToken(name, tail);
      NextTokenIs(p, Token(|name|, name, tail, None));
  }

  lemma ProcessSTagRead(p: State, name: Bytes, r: Bytes, f: Follow)
    requires ValidName(name) && p.rest == name + r && Ahead(r, f) && (f.More? ==> f.gap != [])
    ensures Delivers(ProcessSTag(p), StartElement(name), p, Behind(f, r),
                     if f.Bracket? then ContentMode else if f.Slash? then ElementMode else AttributeMode, p.need, name)
  {
    hide GetNextToken, ValidName, NextToken, Ahead;
    AheadEndsName(r, f);
    NameToken(name, r);
    NextTokenIs(p, Token(|name|, name, r, None));
    NameFirstByte(name);
    var p1 := NextToken(p).1;
    AheadToken(p1.(lastElem := p1.tok, save := p1.rest), r, f);
  }

  /** The token `<` leads to the start-tag processing. */
  lemma OpenDispatch(p: State, name: Bytes, r: Bytes)
    requires !p.mode.ContentMode? && ValidName(name) && p.rest == [0x3C] + (name + r)
    ensures GetNextNode(p) == ProcessSTag(p.(rest := name + r, tok := [0x3C]))
  {
    hide GetNextToken, ValidName, ProcessSTag;
    assert SkipWhite(p.rest) == p.rest;
    OpenToken(name, r);
    NextTokenIs(p, Token(1, [0x3C], name + r, None));
    assert p.(rest := SkipWhite(p.rest)) == p;
  }

  /** A start tag up to its first attribute or its end. */
  lemma StartRound(p: State, name: Bytes, r: Bytes, f: Follow)
    requires !p.mode.ContentMode? && ValidName(name) && p.rest == [0x3C] + (name + r)
    requires Ahead(r, f) && (f.More? ==> f.gap != [])
    ensures Delivers(GetNextNode(p), StartElement(name), p, Behind(f, r),
                     if f.Bracket? then ContentMode else if f.Slash? then ElementMode else AttributeMode, p.need, name)
  {
    hide ProcessSTag, ValidName, GetNextNode, Ahead;
    OpenDispatch(p, name, r);
    ProcessSTagRead(p.(rest := name + r, tok := [0x3C]), name, r, f);
  }

  /** The end of an empty-element tag is the end of the element that began it. */
  lemma EmptyRound(p: State, name: Bytes, r: Bytes)
    requires !p.mode.ContentMode? && p.rest == [0x2F, 0x3E] + r && p.lastElem == name && name != []
    ensures Delivers(GetNextNode(p), EndElement(name), p, r, p.mode, p.need, name)
  {
    hide GetNextToken, ProcessSTag, ProcessETag, ProcessAttribute;
    assert [0x2F, 0x3E] == COMPLETETAG;
    assert SkipWhite(p.rest) == p.rest;
    EmptyTagToken(r);
    NextTokenIs(p, Token(2, COMPLETETAG, r, Some(COMPLETETAG + r)));
    assert p.(rest := SkipWhite(p.rest)) == p;
  }

  /** An end tag. */
  lemma EndTag(p: State, name: Bytes, gap: Bytes, r: Bytes)
    requires !p.mode.ContentMode? && ValidName(name) && Gap(gap) && p.rest == [0x3C, 0x2F] + (name + (gap + ([0x3E] + r)))
    ensures Delivers(GetNextNode(p), EndElement(name), p, r, p.mode, p.need, p.lastElem)
  {
    hide GetNextToken, ValidName, ProcessSTag, ProcessAttribute;
    var tail := gap + ([0x3E] + r);
    assert [0x3C, 0x2F] == ENDTAG;
    assert SkipWhite(p.rest) == p.rest;
    CloseToken(name + tail);
    NextTokenIs(p, Token(2, ENDTAG, name + tail, None));
    assert p.(rest := SkipWhite(p.rest)) == p;
    var p1 := NextToken(p).1;
    assert GetNextNode(p) == ProcessETag(p1);
    EndTagName(p1, name, gap, r);
  }

  lemma EndTagName(p: State, name: Bytes, gap: Bytes, r: Bytes)
    requires ValidName(name) && Gap(gap) && p.rest == name + (gap + ([0x3E] + r))
    ensures Delivers(ProcessETag(p), EndElement(name), p, r, p.mode, p.need, p.lastElem)
  {
    hide GetNextToken, ValidName;
    var tail := gap + ([0x3E] + r);
    NameFirstByte(name);
    AheadEndsName(tail, Bracket(gap, r));
    NameToken(name, tail);
    NextTokenIs(p, Token(|name|, name, tail, None));
    var p2 := NextToken(p).1;
    GapWhite(gap);
    GapSkipped(gap, [0x3E] + r);
    PunctToken(0x3E, r);
    NextTokenIs(p2.(rest := SkipWhite(p2.rest)), Token(1, [0x3E], r, None));
  }

  // ---- attributes ----

  /** A value passes the check for `<`. */
  lemma {:induction false} NoLessThanIn(s: Bytes, len: int)
    requires len <= |s| && forall i | 0 <= i < len :: s[i] != 0x3C
    ensures NoLessThan(s, len)
    decreases |s|
  {
    if len > 0 {
      if s[0] == 0x26 && |s| > 1 {
        NoLessThanIn(s[2..], len - 2);
      } else {
        NoLessThanIn(s[1..], len - 1);
      }
    }
  }

  /** A byte is found where it stands first. */
  lemma {:induction false} FindByte(e: Bytes, b: Byte, r: Bytes)
    requires b !in e
    ensures Find(e + ([b] + r), [b]) == Some(|e|)
  {
    var s := e + ([b] + r);
    if e == [] {
      assert s == [b] + r;
    } else {
      assert s[1..] == e[1..] + ([b] + r);
      assert s[0] == e[0] && [b][0] == b;
      FindByte(e[1..], b, r);
    }
  }

  /** The closing quote is found exactly behind the value. */
  lemma ClosingQuote(e: Bytes, quote: Byte, r: Bytes)
    requires forall i | 0 <= i < |e| :: e[i] !in {0x3C, quote}
    ensures Find(e + ([quote] + r), [quote]) == Some(|e|)
    ensures NoLessThan(e + ([quote] + r), |e|)
  {
    hide Find, NoLessThan;
    FindByte(e, quote, r);
    NoLessThanIn(e + ([quote] + r), |e|);
  }

  /** The quoted value. */
  lemma ValueRead(p: State, gap: Bytes, quote: Byte, xs: seq<Spelling>, r: Bytes)
    requires Gap(gap) && quote in {0x22, 0x27} && CorrectText(xs)
    requires forall i | 0 <= i < |RawText(xs)| :: RawText(xs)[i] !in {0x3C, quote}
    requires p.rest == gap + ([quote] + (RawText(xs) + ([quote] + r)))
    ensures AttributeValue(p).Some? && AttributeValue(p).value.0 == Meant(xs)
    ensures Moved(p, AttributeValue(p).value.1, r, p.mode, p.need, p.lastElem)
  {
    hide GetNextToken, CopyLoop, CorrectText, NoLessThan, RawText, Meant, Find, Gap;
    var e := RawText(xs);
    var s := e + ([quote] + r);
    GapWhite(gap);
    GapToken(gap, [quote] + s);
    PunctToken(quote, s);
    NextTokenIs(p, Token(1, [quote], s, None));
    ClosingQuote(e, quote, r);
    TextCopied(xs, [quote] + r);
    if |e| == 0 {
      NothingRaw(xs);
    }
    assert s[|e| + 1..] == r;
  }

  lemma NothingRaw(xs: seq<Spelling>)
    requires CorrectText(xs) && RawText(xs) == []
    ensures xs == [] && Meant(xs) == []
  {
    hide Raw, Correct;
    if xs != [] {
      SpellingRead(xs[0], []);
    }
  }

  lemma ReadAhead(p: State, f: Follow)
    requires Ahead(p.rest, f)
    ensures AfterAttribute(p).Some?
    ensures Moved(p, AfterAttribute(p).value, Behind(f, p.rest), if f.Bracket? then ContentMode else p.mode, p.need, p.lastElem)
  {
    hide NextToken, Ahead;
    AheadToken(p.(save := p.rest), p.rest, f);
  }

  /** An attribute is delivered with its namespace entered, unless the namespace cannot be resolved. */
  predicate AttributeOutcome(step: Step, p: State, a: Attr, r: Bytes, f: Follow)
    requires p.stack != []
  {
    var stack := DeclareTop(p.stack, a.name, a.value);
    match ResolveNeed(p.need, stack)
    case Resolved(need) =>
      Delivers(step, Attribute(a.name, a.value), p.(stack := stack), Behind(f, r),
               if f.Bracket? then ContentMode else p.mode, need, p.lastElem)
    case Refused => step == Failed
    case NullString => step == NullAccess
  }

  /** The end of an attribute, behind its value. */
  lemma AttributeEnd(p: State, name: Bytes, value: Bytes, f: Follow)
    requires p.stack != [] && Ahead(p.rest, f)
    ensures AttributeOutcome(AttributeRead(p, name, value), p, Attr(name, value), p.rest, f)
  {
    hide AfterAttribute, Ahead, DeclareTop, ResolveNeed;
    if XmlNamespace(p, name, value).Ok? {
      ReadAhead(XmlNamespace(p, name, value).st, f);
    }
  }

  /** From the attribute name on to the end of the value. */
  lemma ValueStep(p: State, a: Written, r: Bytes) returns (q: State)
    requires LegalAttr(a) && p.stack != []
    requires p.tok == a.name && p.rest == a.before + ([0x3D] + (a.after + ([a.quote] + (RawText(a.value) + ([a.quote] + r)))))
    ensures Moved(p, q, r, p.mode, p.need, p.lastElem) && q.stack != []
    ensures ProcessAttribute(p) == AttributeRead(q, a.name, Meant(a.value))
  {
    hide GetNextToken, IsNameChar, Utf8ToInt, AttributeValue, AttributeRead, RawText, Meant, CorrectText, NameTail,
         IntToUtf8, Gap;
    var s := a.after + ([a.quote] + (RawText(a.value) + ([a.quote] + r)));
    GapWhite(a.before);
    GapToken(a.before, [0x3D] + s);
    PunctToken(0x3D, s);
    NextTokenIs(p, Token(1, [0x3D], s, None));
    var p1 := NextToken(p).1;
    ValueRead(p1, a.after, a.quote, a.value, r);
    q := AttributeValue(p1).value.1;
  }

  /** The outcome does not depend on savePtr, tokenBuf and curPtr. */
  lemma OutcomeFrom(step: Step, p: State, q: State, a: Attr, r: Bytes, f: Follow)
    requires p.stack != [] && Moved(p, q, q.rest, p.mode, p.need, p.lastElem)
    requires AttributeOutcome(step, q, a, r, f)
    ensures AttributeOutcome(step, p, a, r, f)
  {
    hide DeclareTop, ResolveNeed;
  }

  /** A name behind a gap. */
  lemma NameAhead(p: State, gap: Bytes, name: Bytes, s: Bytes)
    requires Gap(gap) && ValidName(name) && EndsName(s) && p.rest == gap + (name + s)
    ensures NextToken(p.(rest := SkipWhite(p.rest))) == (|name|, p.(rest := s, tok := name))
  {
    hide GetNextToken, ValidName, Gap;
    NameFirstByte(name);
    assert (name + s)[0] == name[0];
    GapWhite(gap);
    GapSkipped(gap, name + s);
    NameToken(name, s);
    NextTokenIs(p.(rest := SkipWhite(p.rest)), Token(|name|, name, s, None));
  }

  /** An attribute up to the end of its value; the parser does not ask for a gap in front of it. */
  lemma AttributeStep(p: State, a: Written, r: Bytes) returns (q: State)
    requires p.mode.AttributeMode? && p.stack != [] && LegalAttr(a) && p.rest == AttrBytes(a, r)
    ensures Moved(p, q, r, p.mode, p.need, p.lastElem) && q.stack != []
    ensures GetNextNode(p) == AttributeRead(q, a.name, Meant(a.value))
  {
    hide GetNextToken, ValidName, ProcessAttribute, AttributeRead, ProcessSTag, ProcessETag, RawText, Meant, CorrectText, Gap;
    var s := a.before + ([0x3D] + (a.after + ([a.quote] + (RawText(a.value) + ([a.quote] + r)))));
    NameFirstByte(a.name);
    BeforeEndsName(a.before, s);
    var p0 := p.(rest := SkipWhite(p.rest));
    NameAhead(p, a.gap, a.name, s);
    var p1 := NextToken(p0).1;
    assert GetNextNode(p) == ProcessAttribute(p1);
    q := ValueStep(p1, a, r);
  }

  /** One attribute inside a start tag. */
  lemma AttributeRound(p: State, a: Written, r: Bytes, f: Follow)
    requires p.mode.AttributeMode? && p.stack != [] && LegalAttr(a) && Ahead(r, f)
    requires p.rest == AttrBytes(a, r)
    ensures AttributeOutcome(GetNextNode(p), p, Attr(a.name, Meant(a.value)), r, f)
  {
    hide GetNextNode, LegalAttr, AttributeRead, Meant, Ahead, AttributeOutcome;
    var q := AttributeStep(p, a, r);
    AttributeEnd(q, a.name, Meant(a.value), f);
    OutcomeFrom(GetNextNode(p), p, q, Attr(a.name, Meant(a.value)), r, f);
  }

  lemma BeforeEndsName(before: Bytes, s: Bytes)
    requires Gap(before) && |s| > |before| && s[..|before|] == before && s[|before|] == 0x3D
    ensures EndsName(s)
  {
    if before != [] {
      assert s[0] == before[0];
    }
  }

  // ---- content ----

  /** In content, markup that is not CDATA, a comment or a PI switches to element mode. */
  lemma SwitchRound(p: State, w: Bytes, r: Bytes)
    requires p.mode.ContentMode? && AllWhite(w) && p.rest == w + r
    requires |r| > 1 && r[0] == 0x3C && r[1] != 0x21 && r[1] != 0x3F
    ensures Delivers(GetNextNode(p), NoNode, p, r, ElementMode, p.need, p.lastElem)
  {
    SkipWhiteRun(w, r);
  }

  /** White space up to the end of the input. */
  lemma FinalWhite(p: State)
    requires p.mode.ContentMode? && p.rest != [] && AllWhite(p.rest)
    ensures Delivers(GetNextNode(p), NoNode, p, [], ContentMode, p.need, p.lastElem)
  {
    SkipWhiteRun(p.rest, []);
    assert p.rest + [] == p.rest;
  }

  /** The scan for the end of text stops at the next `<`. */
  lemma {:induction false} TextStops(e: Bytes, r: Bytes)
    requires r != [] && r[0] == 0x3C && (forall i | 0 <= i < |e| :: e[i] != 0x3C)
    requires forall i | 0 <= i < |e| :: !(CDEND <= e[i..])
    ensures TextLength(e + r) == |e|
  {
    if e == [] {
      assert e + r == r;
    } else {
      assert (e + r)[1..] == e[1..] + r;
      forall i | 0 <= i < |e[1..]|
        ensures !(CDEND <= e[1..][i..])
      {
        assert e[1..][i..] == e[i + 1..];
      }
      TextStops(e[1..], r);
      assert e[0..] == e;
      assert (e + r)[|e|] == 0x3C;
      assert if |e| >= 3 then (e + r)[..3] == e[..3] else CDEND[|e|] != 0x3C;
    }
  }

  /** The first byte of a text that is not white space is not `<`. */
  lemma {:induction false} SkipWhiteText(e: Bytes, r: Bytes)
    requires !AllWhite(e) && forall i | 0 <= i < |e| :: e[i] != 0x3C
    ensures var s := SkipWhite(e + r);
            s != [] && s[0] != 0x3C
  {
    if IsWhite(e[0]) {
      assert (e + r)[1..] == e[1..] + r;
      assert forall i | 0 < i < |e| :: e[i] == e[1..][i - 1];
      SkipWhiteText(e[1..], r);
    } else {
      assert (e + r)[0] == e[0];
    }
  }

  lemma NotWhite(w: Bytes)
    requires !Gap(w)
    ensures !AllWhite(w)
  {
    var i :| 0 <= i < |w| && w[i] !in {0x20, 0x09, 0x0D, 0x0A};
    assert !IsWhite(w[i]);
  }

  /** Text. */
  lemma TextRound(p: State, xs: seq<Spelling>, r: Bytes)
    requires p.mode.ContentMode? && CorrectChars(xs) && r != [] && r[0] == 0x3C
    requires p.rest == RawText(xs) + r
    ensures Delivers(GetNextNode(p), TextNode(Meant(xs)), p, r, ContentMode, p.need, p.lastElem)
  {
    hide CopyLoop, RawText, Meant, CorrectText, TextLength, SkipWhite, Gap;
    var e := RawText(xs);
    NotWhite(e);
    SkipWhiteText(e, r);
    assert CDEND == [0x5D, 0x5D, 0x3E];
    TextStops(e, r);
    assert p.rest[|e|..] == r;
    TextCopied(xs, r);
    MeantSome(xs);
  }

  lemma MeantSome(xs: seq<Spelling>)
    requires CorrectText(xs)
    ensures xs != [] ==> Meant(xs) != []
    ensures !Gap(RawText(xs)) ==> xs != []
  {
    hide Raw;
    if xs != [] {
      assert Correct(xs[0]);
      Encodable(xs[0].c);
    }
  }

  lemma {:induction false} CDataStops(v: Bytes, r: Bytes)
    requires forall i | 0 <= i < |v| :: v[i] < 0x80 && IsXmlChar(v[i])
    requires forall i | 0 <= i < |v| :: !(CDEND <= v[i..])
    ensures CDataLength(v + (CDEND + r)) == |v|
  {
    var s := v + (CDEND + r);
    if v == [] {
      assert s == CDEND + r;
    } else {
      assert s[1..] == v[1..] + (CDEND + r);
      forall i | 0 <= i < |v[1..]|
        ensures !(CDEND <= v[1..][i..])
      {
        assert v[1..][i..] == v[i + 1..];
      }
      CDataStops(v[1..], r);
      assert v[0..] == v;
      assert if |v| >= 3 then s[..3] == v[..3] else s[2] == CDEND[2 - |v|];
    }
  }

  /** A CDATA section. */
  lemma CDataRound(p: State, w: Bytes, v: Bytes, r: Bytes)
    requires p.mode.ContentMode? && AllWhite(w) && ValidCData(v)
    requires p.rest == w + PartBytes(Section(v), r)
    ensures Delivers(GetNextNode(p), CDataNode(v), p, r, ContentMode, p.need, p.lastElem)
  {
    hide CDataLength, SkipWhite;
    var t := v + (CDEND + r);
    var s := CDSTART + t;
    assert p.rest == w + s;
    SkipWhiteRun(w, s);
    assert s[9..] == t;
    CDataStops(v, r);
    assert t[..|v|] == v && t[|v| + 3..] == r;
  }

  // ---- comments and processing instructions ----

  /** The end of a comment of the standard is found exactly behind it, if it does not begin like an end. */
  lemma CommentEnd(c: Bytes, r: Bytes)
    requires CorrectComment(c)
    ensures Find(PartBytes(Comment(c), r), END_COMMENT) == Some(4 + |c|)
    ensures PartBytes(Comment(c), r)[3 + |c|] != 0x2D
    ensures PartBytes(Comment(c), r)[4 + |c| + 3..] == r
  {
    hide Find;
    var q := [0x3C, 0x21, 0x2D, 0x2D] + c;
    var s := q + END_COMMENT + r;
    assert PartBytes(Comment(c), r) == s;
    assert s[..4] == [0x3C, 0x21, 0x2D, 0x2D] && s[4..|c| + 4] == c && s[|c| + 4] == 0x2D;
    forall i | 0 <= i < |q|
      ensures !(END_COMMENT <= s[i..])
    {
      NoCommentEnd(c, s, i);
      assert s[i..][0] == s[i] && s[i..][1] == s[i + 1] && s[i..][2] == s[i + 2];
    }
    FindAt(q, END_COMMENT, r);
  }

  lemma NoCommentEnd(c: Bytes, s: Bytes, i: nat)
    requires CorrectComment(c) && |s| >= |c| + 7 && i < |c| + 4
    requires s[..4] == [0x3C, 0x21, 0x2D, 0x2D] && s[4..|c| + 4] == c && s[|c| + 4] == 0x2D
    ensures s[i] != 0x2D || s[i + 1] != 0x2D || s[i + 2] != 0x3E
  {
    assert s[0] == s[..4][0] && s[1] == s[..4][1];
    assert forall k | 4 <= k < |c| + 4 :: s[k] == c[k - 4] by {
      assert forall k | 4 <= k < |c| + 4 :: s[k] == s[4..|c| + 4][k - 4];
    }
  }

  /** A comment in content is skipped. */
  lemma CommentRound(p: State, w: Bytes, c: Bytes, r: Bytes)
    requires p.mode.ContentMode? && AllWhite(w) && CorrectComment(c)
    requires p.rest == w + PartBytes(Comment(c), r)
    ensures Delivers(GetNextNode(p), NoNode, p, r, ContentMode, p.need, p.lastElem)
  {
    hide SkipWhite, Find;
    var s := PartBytes(Comment(c), r);
    assert s[..4] == BEGIN_COMMENT;
    SkipWhiteRun(w, s);
    CommentEnd(c, r);
    assert !(CDSTART <= s) by {
      assert s[2] != CDSTART[2];
    }
  }

  lemma InstructionEnd(c: Bytes, r: Bytes)
    requires CorrectInstruction(c)
    ensures Find(PartBytes(Instruction(c), r), END_PI) == Some(2 + |c|)
    ensures PartBytes(Instruction(c), r)[2 + |c| + 2..] == r
    ensures !IsXmlDecl(PartBytes(Instruction(c), r))
  {
    hide StartsWithNoCase, Find;
    var q := [0x3C, 0x3F] + c;
    var s := q + END_PI + r;
    assert PartBytes(Instruction(c), r) == s;
    assert s[2..|c| + 2] == c && s[2..|c| + 4] == c + END_PI && s[..2] == [0x3C, 0x3F];
    forall i | 0 <= i < |q|
      ensures !(END_PI <= s[i..])
    {
      NoInstructionEnd(c, s, i);
      assert s[i..][0] == s[i] && s[i..][1] == s[i + 1];
    }
    FindAt(q, END_PI, r);
    if StartsWithNoCase(s, XMLDECL) {
      NotDeclaration(c, s, XMLDECL, [0x78, 0x6D, 0x6C, 0x20]);
    }
    if StartsWithNoCase(s, XMLDECL2) {
      NotDeclaration(c, s, XMLDECL2, [0x78, 0x6D, 0x6C, 0x3F]);
    }
  }

  lemma NoInstructionEnd(c: Bytes, s: Bytes, i: nat)
    requires CorrectInstruction(c) && |s| >= |c| + 4 && i < |c| + 2
    requires s[..2] == [0x3C, 0x3F] && s[2..|c| + 2] == c && s[2..|c| + 4] == c + END_PI
    ensures s[i] != 0x3F || s[i + 1] != 0x3E
  {
    hide StartsWithNoCase;
    assert s[0] == s[..2][0];
    assert s[|c| + 2] == 0x3F by {
      assert s[2..|c| + 4][|c|] == 0x3F;
    }
    assert forall k | 2 <= k < |c| + 2 :: s[k] == c[k - 2] by {
      assert forall k | 2 <= k < |c| + 2 :: s[k] == s[2..|c| + 2][k - 2];
    }
  }

  lemma NotDeclaration(c: Bytes, s: Bytes, decl: Bytes, key: Bytes)
    requires |key| == 4 && decl == [0x3C, 0x3F] + key && key[..3] == [0x78, 0x6D, 0x6C]
    requires |s| >= |c| + 4 && s[2..|c| + 4] == c + END_PI && StartsWithNoCase(s, decl)
    ensures StartsWithNoCase(c + [0x3F], key)
  {
    var d := c + [0x3F];
    assert forall i | 0 <= i < |d| :: s[i + 2] == d[i] by {
      assert forall i | 0 <= i < |d| :: s[2..|c| + 4][i] == d[i];
    }
    assert s[|c| + 3] == 0x3E by {
      assert s[2..|c| + 4][|c| + 1] == 0x3E;
    }
    forall i | 0 <= i < 4
      ensures Lower(s[i + 2]) == Lower(key[i])
    {
      assert decl[i + 2] == key[i];
    }
    assert key[0] == key[..3][0] && key[1] == key[..3][1] && key[2] == key[..3][2];
    assert |d| >= 4;
  }

  /** A processing instruction in content is skipped. */
  lemma InstructionRound(p: State, w: Bytes, c: Bytes, r: Bytes)
    requires p.mode.ContentMode? && AllWhite(w) && CorrectInstruction(c)
    requires p.rest == w + PartBytes(Instruction(c), r)
    ensures Delivers(GetNextNode(p), NoNode, p, r, ContentMode, p.need, p.lastElem)
  {
    hide SkipWhite, Find, IsXmlDecl;
    var s := PartBytes(Instruction(c), r);
    assert s[..2] == BEGIN_PI;
    SkipWhiteRun(w, s);
    InstructionEnd(c, r);
    assert !(CDSTART <= s) by {
      assert s[1] != CDSTART[1];
    }
    assert !(BEGIN_COMMENT <= s) by {
      assert s[1] != BEGIN_COMMENT[1];
    }
  }
}
