/**
 * What the parser can deliver: every name, attribute value, text and CDATA section in an accepted document
 * is one that the printer and the parser can handle, whatever bytes were parsed.
 */
module ParsedNodes {
  import opened CStrings
  import opened Utf8
  import opened XmlChars
  import opened Escape
  import opened XmlTree
  import opened Lexer
  import opened Parser
  import opened TokenLemmas
  import opened Sources

  predicate SoundAttrs(attrs: seq<Attr>) {
    forall i | 0 <= i < |attrs| :: ValidName(attrs[i].name) && WellFormed(attrs[i].value)
  }

  /** Valid names, well-formed attribute values and text, readable CDATA, at every depth. */
  predicate SoundLeaves(nodes: seq<Node>) {
    nodes == [] ||
    (SoundLeaves(nodes[1..]) &&
     match nodes[0]
     case Element(name, attrs, children) => ValidName(name) && SoundAttrs(attrs) && SoundLeaves(children)
     case Text(v) => WellFormed(v)
     case CData(v) => ValidCData(v))
  }

  predicate SoundPath(path: seq<Frame>) {
    forall i | 0 <= i < |path| ::
      ValidName(path[i].name) && SoundAttrs(path[i].attrs) && SoundLeaves(path[i].children)
  }

  // ---- what is copied to the token buffer ----

  lemma Reencoded(c: int, t: Bytes)
    requires IsXmlChar(c)
    ensures var s := IntToUtf8(c) + t;
            Utf8ToInt(s) == (c, |IntToUtf8(c)|) && s[..|IntToUtf8(c)|] == IntToUtf8(c) && s[|IntToUtf8(c)|..] == t
  {
    DecodeEncode(c, t);
  }

  lemma OneByteCopy(c: int)
    requires 0 < c < 0x80
    ensures IntToUtf8(c) == [c]
  {
  }

  /** Whatever is copied is shortest-form UTF-8 of XML characters. */
  lemma {:induction false} CopiedWellFormed(src: Bytes, len: int)
    ensures WellFormed(CopyLoop(src, len).1)
    decreases |src|
  {
    hide GetChar, Utf8ToInt, IntToUtf8;
    if len > 0 && GetChar(src).0 > 0 {
      var (c, n) := GetChar(src);
      CopiedWellFormed(src[n..], len - n);
      if n == 1 {
        OneByteCopy(c);
      }
      Reencoded(c, CopyLoop(src[n..], len - n).1);
    }
  }

  lemma FirstChar(s: Bytes, b: bool)
    requires IsNameChar(Utf8ToInt(s).0, b)
    ensures IsXmlChar(Utf8ToInt(s).0) && 0 < Utf8ToInt(s).1 <= |s| && At(s, 0) != 0x26
  {
    hide IsNameChar;
  }

  /** One name character is copied in front of the rest. */
  lemma CopiedNameChar(s: Bytes, b: bool, len: nat)
    requires IsNameChar(Utf8ToInt(s).0, b) && Utf8ToInt(s).1 <= |s|
    ensures CopyLoop(s, Utf8ToInt(s).1 + len).1 == IntToUtf8(Utf8ToInt(s).0) + CopyLoop(s[Utf8ToInt(s).1..], len).1
  {
    hide IsNameChar, IntToUtf8, Utf8ToInt;
    FirstChar(s, b);
    GetCharPlain(s);
    if Utf8ToInt(s).1 == 1 {
      OneByteCopy(Utf8ToInt(s).0);
    }
  }

  lemma TailFrom(c: int, t: Bytes)
    requires IsNameChar(c, true) && NameTail(t)
    ensures NameTail(IntToUtf8(c) + t)
  {
    hide IsNameChar, Utf8ToInt, IntToUtf8;
    Reencoded(c, t);
  }

  lemma NameFrom(c: int, t: Bytes)
    requires IsNameChar(c, false) && NameTail(t)
    ensures ValidName(IntToUtf8(c) + t)
  {
    hide IsNameChar, Utf8ToInt, IntToUtf8, NameTail;
    Reencoded(c, t);
  }

  lemma {:induction false} CopiedNameTail(s: Bytes)
    ensures NameTail(CopyLoop(s, NameRun(s)).1)
    decreases |s|
  {
    hide IsNameChar, IntToUtf8, Utf8ToInt, CopyLoop, NameTail;
    var (c, n) := Utf8ToInt(s);
    if IsNameChar(c, true) {
      FirstChar(s, true);
      CopiedNameChar(s, true, NameRun(s[n..]));
      CopiedNameTail(s[n..]);
      TailFrom(c, CopyLoop(s[n..], NameRun(s[n..])).1);
    } else {
      CopyNothing(s);
    }
  }

  lemma CopyNothing(s: Bytes)
    ensures CopyLoop(s, 0) == (true, []) && NameTail([])
  {
  }

  lemma CopiedName(s: Bytes)
    requires IsNameChar(Utf8ToInt(s).0, false)
    ensures var n := Utf8ToInt(s).1;
            0 < n <= |s| && ValidName(CopyLoop(s, n + NameRun(s[n..])).1)
  {
    hide IsNameChar, IntToUtf8, Utf8ToInt, CopyLoop, ValidName, NameTail, NameRun;
    FirstChar(s, false);
    var (c, n) := Utf8ToInt(s);
    CopiedNameChar(s, false, NameRun(s[n..]));
    CopiedNameTail(s[n..]);
    NameFrom(c, CopyLoop(s[n..], NameRun(s[n..])).1);
  }

  // ---- tokens ----

  /** A token at s: punctuation as it stands, or a name. */
  lemma TokenAt(s: Bytes)
    requires TokenLength(s).Some? && TokenLength(s).value > 0 && !OverlongEndTag(s)
    ensures var k := TokenLength(s).value;
            var tok := CopyToken(s, k).1;
            ValidName(tok) || (At(s, 0) in {0x22, 0x27, 0x3D, 0x3E, 0x3C, 0x2F} && tok == s[..k])
  {
    hide IsNameChar, CopyLoop, Utf8ToInt, ValidName, NameRun;
    if At(s, 0) in {0x22, 0x27, 0x3D, 0x3E, 0x3C, 0x2F} {
      AsciiCopies(s, TokenLength(s).value);
    } else {
      CopiedName(s);
    }
  }

  lemma AsciiDecode(s: Bytes)
    requires s != [] && s[0] < 0x80
    ensures Utf8ToInt(s).0 == s[0]
  {
  }

  lemma PunctuationStartsNoName(s: Bytes)
    requires s != [] && s[0] in {0x22, 0x27, 0x3D, 0x3E, 0x3C, 0x2F}
    ensures !IsNameChar(Utf8ToInt(s).0, false)
  {
    AsciiDecode(s);
    AsciiNameChars(s[0]);
  }

  /** A token that begins like a name is one. */
  lemma TokenName(input: Bytes)
    requires var t := GetNextToken(input); t.len != 0 && IsNameChar(Utf8ToInt(t.tok).0, false)
    ensures ValidName(GetNextToken(input).tok)
  {
    hide IsNameChar, CopyToken, Utf8ToInt, ValidName, TokenLength, SkipMisc;
    var (ok, s) := SkipMisc(input);
    var tok := GetNextToken(input).tok;
    TokenCopies(s);
    TokenAt(s);
    if !ValidName(tok) {
      assert tok[0] == At(s, 0);
      PunctuationStartsNoName(tok);
    }
  }

  /** Behind the token `<` there is a name. */
  lemma NameBehindOpen(input: Bytes)
    requires var t := GetNextToken(input); t.len != 0 && t.tok[0] == 0x3C && t.tok != ENDTAG
    ensures IsNameChar(Utf8ToInt(GetNextToken(input).rest).0, false)
  {
    hide IsNameChar, CopyToken, Utf8ToInt, ValidName, SkipMisc;
    var (ok, s) := SkipMisc(input);
    var tok := GetNextToken(input).tok;
    TokenCopies(s);
    TokenAt(s);
    if ValidName(tok) {
      NameFirstByte(tok);
      assert false;
    }
    assert At(s, 0) == 0x3C;
    if TokenLength(s).value == 2 {
      SecondByte(s);
    }
  }

  lemma SecondByte(s: Bytes)
    requires At(s, 0) == 0x3C && Utf8ToInt(s[1..]).0 == 0x2F && !OverlongEndTag(s)
    ensures |s| >= 2 && s[..2] == ENDTAG
  {
    hide Utf8ToInt;
  }

  /** A name at the front of the input is the next token. */
  lemma NameNext(input: Bytes)
    requires IsNameChar(Utf8ToInt(input).0, false) && GetNextToken(input).len != 0
    ensures ValidName(GetNextToken(input).tok)
  {
    hide IsNameChar, CopyToken, Utf8ToInt, ValidName, SkipMisc, NameRun;
    FirstChar(input, false);
    NoNameInMisc(input);
    NoMisc(input);
    TokenCopies(input);
    TokenAt(input);
    if At(input, 0) in {0x22, 0x27, 0x3D, 0x3E, 0x3C, 0x2F} {
      PunctuationStartsNoName(input);
    }
  }

  lemma NoNameInMisc(input: Bytes)
    requires IsNameChar(Utf8ToInt(input).0, false)
    ensures input != [] && input[0] != 0x3C && !IsWhite(input[0])
  {
    FirstChar(input, false);
    if input[0] < 0x80 {
      AsciiDecode(input);
      AsciiNameChars(input[0]);
    }
  }

  // ---- events ----

  /** What an event carries is sound. */
  predicate SoundEvent(ev: Event) {
    match ev
    case StartElement(name) => ValidName(name)
    case Attribute(name, value) => ValidName(name) && WellFormed(value)
    case TextNode(value) => WellFormed(value)
    case CDataNode(value) => ValidCData(value)
    case _ => true
  }

  lemma {:induction false} CDataScanned(s: Bytes, i: nat)
    requires i < CDataLength(s)
    ensures s[i] < 0x80 && IsXmlChar(s[i]) && !(CDEND <= s[i..])
  {
    if i > 0 {
      CDataScanned(s[1..], i - 1);
      assert s[1..][i - 1..] == s[i..];
    } else {
      assert s[0..] == s;
    }
  }

  lemma CDataSound(s: Bytes)
    requires CDSTART <= s && ProcessCDSect(s).Some?
    ensures ValidCData(ProcessCDSect(s).value.0)
  {
    hide CDataLength;
    var t := s[9..];
    var k := CDataLength(t);
    var v := t[..k];
    forall i | 0 <= i < |v|
      ensures v[i] < 0x80 && IsXmlChar(v[i]) && !(CDEND <= v[i..])
    {
      CDataScanned(t, i);
      assert v[i..] <= t[i..];
    }
  }

  lemma CopyTokenWellFormed(s: Bytes, k: int)
    ensures WellFormed(CopyToken(s, k).1)
  {
    CopiedWellFormed(s, k);
  }

  lemma ContentSound(p: State)
    requires p.rest != [] && ProcessContent(p).Ok?
    ensures SoundEvent(ProcessContent(p).ev)
  {
    hide WellFormed, ValidCData, CopyToken, ProcessCDSect, TextLength, SkipWhite, SkipComment, SkipPI;
    var s := SkipWhite(p.rest);
    if CDSTART <= s && ProcessCDSect(s).Some? {
      CDataSound(s);
    }
    CopyTokenWellFormed(p.rest, TextLength(p.rest));
  }

  lemma STagSound(p: State)
    requires IsNameChar(Utf8ToInt(p.rest).0, false) && ProcessSTag(p).Ok?
    ensures SoundEvent(ProcessSTag(p).ev)
  {
    hide IsNameChar, Utf8ToInt, GetNextToken, ValidName;
    NameNext(p.rest);
  }

  lemma ValueSound(p: State)
    requires AttributeValue(p).Some?
    ensures WellFormed(AttributeValue(p).value.0)
  {
    hide GetNextToken, CopyToken, NoLessThan, Find;
    var p1 := NextToken(p).1;
    if k: nat :| Find(p1.rest, p1.tok) == Some(k) {
      CopyTokenWellFormed(p1.rest, k);
    }
  }

  lemma AttributeSound(p: State)
    requires p.stack != [] && ProcessAttribute(p).Ok? && (IsNameChar(Utf8ToInt(p.tok).0, false) ==> ValidName(p.tok))
    ensures SoundEvent(ProcessAttribute(p).ev)
  {
    hide IsNameChar, Utf8ToInt, GetNextToken, ValidName, AttributeValue, AfterAttribute, WellFormed;
    var p1 := NextToken(p).1;
    if AttributeValue(p1).Some? {
      ValueSound(p1);
    }
  }

  /** Every node the parser delivers is sound. */
  lemma NodeSound(p: State)
    requires GetNextNode(p).Ok?
    ensures SoundEvent(GetNextNode(p).ev)
  {
    hide IsNameChar, Utf8ToInt, GetNextToken, ProcessSTag, ProcessETag, ProcessAttribute, ProcessContent, SkipWhite, ValidName;
    if p.mode.ContentMode? {
      ContentSound(p);
    } else {
      var s := SkipWhite(p.rest);
      var (n, p1) := NextToken(p.(rest := s));
      if n != 0 {
        if p1.tok[0] == 0x3C && p1.tok != ENDTAG {
          NameBehindOpen(s);
          if ProcessSTag(p1).Ok? {
            STagSound(p1);
          }
        }
        if IsNameChar(Utf8ToInt(p1.tok).0, false) {
          TokenName(s);
        }
        if p1.stack != [] && ProcessAttribute(p1).Ok? {
          AttributeSound(p1);
        }
      }
    }
  }

  // ---- the tree under construction ----

  ghost predicate SoundState(p: State) {
    SoundLeaves(p.doc) && SoundPath(p.path)
  }

  lemma {:induction false} SoundAppend(a: seq<Node>, b: seq<Node>)
    requires SoundLeaves(a) && SoundLeaves(b)
    ensures SoundLeaves(a + b)
  {
    hide ValidName, SoundAttrs, WellFormed, ValidCData;
    if a == [] {
      assert a + b == b;
    } else {
      assert (a + b)[1..] == a[1..] + b;
      SoundAppend(a[1..], b);
    }
  }

  lemma AppendSound(p: State, node: Node)
    requires SoundState(p) && SoundLeaves([node])
    ensures AppendToCurrent(p, node).Some? ==> SoundState(AppendToCurrent(p, node).value)
  {
    hide ValidName, SoundAttrs, SoundLeaves;
    if p.path == [] {
      SoundAppend(p.doc, [node]);
    } else {
      SoundAppend(p.path[|p.path| - 1].children, [node]);
    }
  }

  lemma LeafSound(node: Node)
    requires match node
             case Text(v) => WellFormed(v)
             case CData(v) => ValidCData(v)
             case Element(name, attrs, children) => ValidName(name) && SoundAttrs(attrs) && SoundLeaves(children)
    ensures SoundLeaves([node])
  {
    hide WellFormed, ValidCData, ValidName, SoundAttrs;
    assert [node][1..] == [];
  }

  lemma StartSound(p: State, name: Bytes)
    requires SoundState(p) && ValidName(name)
    ensures ProcessElementName(p, name).Some? ==> SoundState(ProcessElementName(p, name).value)
  {
    hide ValidName, SoundLeaves, SoundAttrs;
    NothingSound();
  }

  lemma EndSound(p: State, name: Bytes)
    requires SoundState(p)
    ensures VerifyEndTag(p, name).Some? ==> SoundState(VerifyEndTag(p, name).value)
  {
    hide ValidName, SoundLeaves, SoundAttrs, AppendToCurrent;
    if VerifyEndTag(p, name).Some? {
      var k := |p.path| - 1;
      var x := Closed(p.path[k]);
      LeafSound(x);
      AppendSound(p.(stack := p.stack[1..], path := p.path[..k], mode := ContentMode, tags := p.tags + [Close(name)]), x);
    }
  }

  lemma AttributeKept(p: State, name: Bytes, value: Bytes)
    requires SoundState(p) && ValidName(name) && WellFormed(value)
    ensures ProcessAttributeName(p, name, value).Some? ==> SoundState(ProcessAttributeName(p, name, value).value)
  {
    hide ValidName, WellFormed, SoundLeaves, HasAttr;
  }

  /** One round of the loop keeps the tree sound. */
  lemma SoundKeeps(p: State)
    requires SoundState(p) && GetNextNode(p).Ok?
    ensures var r := Apply(GetNextNode(p).ev, GetNextNode(p).st);
            r.Some? ==> SoundState(r.value)
  {
    hide GetNextNode, WellFormed, ValidCData, ValidName, SoundLeaves, SoundPath, AppendToCurrent,
         ProcessElementName, ProcessAttributeName, VerifyEndTag;
    NodeSound(p);
    var Ok(ev, p1) := GetNextNode(p);
    match ev
    case NoNode =>
    case StartElement(name) => StartSound(p1, name);
    case EndElement(name) => EndSound(p1, name);
    case Attribute(name, value) => AttributeKept(p1, name, value);
    case TextNode(value) =>
      LeafSound(Text(value));
      AppendSound(p1, Text(value));
    case CDataNode(value) =>
      LeafSound(CData(value));
      AppendSound(p1, CData(value));
  }

  lemma NothingSound()
    ensures SoundLeaves([]) && SoundAttrs([])
  {
  }

  lemma {:induction false} SoundLoop(p: State)
    requires SoundState(p)
    ensures ParseLoop(p).Document? ==> SoundLeaves(ParseLoop(p).children)
    decreases |p.rest|, if p.mode.ContentMode? then 1 else 0
  {
    hide GetNextNode, Apply, SoundLeaves, SoundPath;
    match GetNextNode(p)
    case FileDone =>
    case Failed =>
    case NullAccess =>
    case Ok(ev, p1) =>
      match Apply(ev, p1)
      case None =>
      case Some(p2) =>
        SoundKeeps(p);
        SoundLoop(p2);
  }

  /** Whatever bytes are parsed: an accepted document holds valid names, well-formed values and text, and readable CDATA. */
  lemma AcceptedSound(input: Bytes)
    ensures Parse(input).Document? ==> SoundLeaves(Parse(input).children)
  {
    hide ParseLoop, SkipProlog;
    match SkipProlog(input)
    case None =>
    case Some(rest) => SoundLoop(InitialState(rest));
  }
}
