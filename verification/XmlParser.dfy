/**
 * The parser as an object whose fields change step by step (src/ixml/ixmlparser.c). Every method is
 * proved to do what the functions of Escape, Lexer and Parser say about the state.
 */
module XmlParser {
  import opened CStrings
  import opened Utf8
  import opened XmlChars
  import opened XmlTree
  import opened Escape
  import opened Namespaces
  import L = Lexer
  import P = Parser
  import D = Dom
  import opened DomBuilder
  import Printer
  import ParserInvariant

  // ---- characters ----

  /** The digit loop of `&#x`: the value and the place behind the digits. */
  method ReadHex(src: Bytes, start: nat) returns (sum: int, pnum: nat)
    requires start <= |src|
    ensures start <= pnum <= |src| && HexRun(src[start..], 0) == (sum, pnum - start)
  {
    sum, pnum := 0, start;
    while pnum < |src| && IsHexDigit(src[pnum])
      invariant start <= pnum <= |src|
      invariant var (v, n) := HexRun(src[pnum..], sum); HexRun(src[start..], 0) == (v, n + (pnum - start))
    {
      assert src[pnum..][1..] == src[pnum + 1..];
      sum := Wrap32(sum * 16 + HexValue(src[pnum]));
      pnum := pnum + 1;
    }
  }

  /** The digit loop of `&#`. */
  method ReadDec(src: Bytes, start: nat) returns (sum: int, pnum: nat)
    requires start <= |src|
    ensures start <= pnum <= |src| && DecRun(src[start..], 0) == (sum, pnum - start)
  {
    sum, pnum := 0, start;
    while pnum < |src| && IsDecDigit(src[pnum])
      invariant start <= pnum <= |src|
      invariant var (v, n) := DecRun(src[pnum..], sum); DecRun(src[start..], 0) == (v, n + (pnum - start))
    {
      assert src[pnum..][1..] == src[pnum + 1..];
      sum := Wrap32(sum * 10 + (src[pnum] - 0x30));
      pnum := pnum + 1;
    }
  }

  /** Parser_getChar */
  method ReadChar(src: Bytes) returns (c: int, cLen: nat)
    ensures (c, cLen) == GetChar(src)
  {
    hide Utf8ToInt, HexRun, DecRun;
    if At(src, 0) != 0x26 {
      if 0 < At(src, 0) < 0x80 && IsXmlChar(At(src, 0)) {
        return At(src, 0), 1;
      }
      var (i, n) := Utf8ToInt(src);
      if !IsXmlChar(i) {
        return -1, n;
      }
      return i, n;
    } else if StartsWithNoCase(src, QUOT) {
      return 0x22, |QUOT|;
    } else if StartsWithNoCase(src, LT) {
      return 0x3C, |LT|;
    } else if StartsWithNoCase(src, GT) {
      return 0x3E, |GT|;
    } else if StartsWithNoCase(src, APOS) {
      return 0x27, |APOS|;
    } else if StartsWithNoCase(src, AMP) {
      return 0x26, |AMP|;
    } else if StartsWithNoCase(src, ESC_HEX) {
      var sum, pnum := ReadHex(src, |ESC_HEX|);
      if At(src, pnum) != 0x3B || !IsXmlChar(sum) {
        return -1, 0;
      }
      return sum, pnum + 1;
    } else if StartsWithNoCase(src, ESC_DEC) {
      var sum, pnum := ReadDec(src, |ESC_DEC|);
      if At(src, pnum) != 0x3B || !IsXmlChar(sum) {
        return -1, 0;
      }
      return sum, pnum + 1;
    }
    return -1, 0;
  }

  /** Behind the name character at s: the loop that measures a name token. */
  method MeasureName(s: Bytes, tlen: nat) returns (iIndex: nat)
    requires tlen <= |s|
    ensures iIndex == tlen + L.NameRun(s[tlen..])
  {
    hide Utf8ToInt, IsNameChar;
    iIndex := tlen;
    var (c, n) := Utf8ToInt(s[iIndex..]);
    var more := ParserIsNameChar(c, true);
    while more
      invariant iIndex <= |s| && (c, n) == Utf8ToInt(s[iIndex..]) && more == IsNameChar(c, true)
      invariant iIndex + L.NameRun(s[iIndex..]) == tlen + L.NameRun(s[tlen..])
      decreases |s| - iIndex
    {
      assert s[iIndex..][n..] == s[iIndex + n..];
      iIndex := iIndex + n;
      var next := Utf8ToInt(s[iIndex..]);
      c, n := next.0, next.1;
      more := ParserIsNameChar(c, true);
    }
  }

  lemma SkipStringStep(s: Bytes, key: Bytes)
    requires s != [] && !(key <= s)
    ensures L.SkipString(s, key) == L.SkipString(s[1..], key)
  {
    match Find(s[1..], key)
    case None =>
    case Some(k) => assert s[1..][k + |key|..] == s[1 + k + |key|..];
  }

  /** What a step of the parser came to. */
  datatype Code = Done | FileDone | Failed | NullAccess

  /** struct _Parser, with the document it builds; doc and path are what the linked tree stands for. */
  class XmlParser {
    var curPtr: Bytes
    var savePtr: Bytes
    var state: P.Mode
    var tokenBuf: Bytes
    var lastElem: Bytes
    var needPrefix: Option<Bytes>
    var hasTopLevel: bool
    var elementStack: seq<StackItem>  // pCurElement and its nextElement chain
    const dom: Builder                // gRootDoc and currentNodePtr
    ghost var path: seq<P.Frame>
    ghost var doc: seq<Node>
    ghost var tags: seq<P.Tag>

    ghost function View(): P.State
      reads this
    {
      P.State(curPtr, savePtr, state, tokenBuf, lastElem, needPrefix, hasTopLevel, elementStack, path, doc, tags)
    }

    /** Parser_init, and the buffer to read */
    constructor (dataBuffer: Bytes)
      ensures View() == P.InitialState(dataBuffer) && dom.Valid(doc, path)
      ensures fresh(dom) && fresh(dom.nodes)
    {
      hide Builder.Valid;
      curPtr, savePtr, state, tokenBuf, lastElem := dataBuffer, [], P.ElementMode, [], [];
      needPrefix, hasTopLevel, elementStack, path, doc, tags := None, false, [], [], [], [];
      dom := new Builder();
    }

    // ---- scanning ----

    /** Parser_skipWhiteSpaces */
    method SkipWhiteSpaces()
      modifies `curPtr
      ensures curPtr == SkipWhite(old(curPtr))
    {
      while curPtr != [] && IsWhite(curPtr[0])
        invariant SkipWhite(curPtr) == SkipWhite(old(curPtr))
        decreases |curPtr|
      {
        curPtr := curPtr[1..];
      }
    }

    /** Parser_skipString on curPtr */
    method SkipString(key: Bytes) returns (ok: bool)
      requires key != []
      modifies `curPtr
      ensures match L.SkipString(old(curPtr), key)
              case None => !ok && curPtr == []
              case Some(t) => ok && curPtr == t
    {
      while curPtr != [] && !(key <= curPtr)
        invariant L.SkipString(curPtr, key) == L.SkipString(old(curPtr), key)
        decreases |curPtr|
      {
        SkipStringStep(curPtr, key);
        curPtr := curPtr[1..];
      }
      if curPtr == [] {
        return false;
      }
      curPtr := curPtr[|key|..];
      ok := true;
    }

    /** Parser_skipComment on curPtr */
    method SkipComment() returns (ok: bool)
      modifies `curPtr
      ensures match L.SkipComment(old(curPtr))
              case None => !ok && curPtr == old(curPtr)
              case Some(t) => ok && curPtr == t
    {
      match Find(curPtr, L.END_COMMENT) {
        case None => return false;
        case Some(k) =>
          if k != 0 && curPtr[k - 1] != 0x2D {
            curPtr := curPtr[k + 3..];
            return true;
          }
          return false;
      }
    }

    /** Parser_skipMisc */
    method SkipMisc() returns (rc: bool)
      modifies `curPtr
      ensures (rc, curPtr) == L.SkipMisc(old(curPtr))
    {
      rc := true;
      var done := false;
      while !done && rc
        invariant !done && rc ==> L.SkipMisc(curPtr) == L.SkipMisc(old(curPtr))
        invariant done || !rc ==> L.SkipMisc(old(curPtr)) == (rc, curPtr)
        decreases if done || !rc then 0 else 1, |curPtr|
      {
        if StartsWithNoCase(curPtr, L.BEGIN_COMMENT) {
          rc := SkipComment();
        } else if L.IsXmlDecl(curPtr) {
          rc := false;
        } else if StartsWithNoCase(curPtr, L.BEGIN_PI) {
          rc := SkipString(L.END_PI);
        } else {
          done := true;
        }
        SkipWhiteSpaces();
      }
    }

    /** Parser_skipDocType, entered behind the `<` */
    method SkipDocType() returns (ok: bool)
      modifies `curPtr
      ensures match L.SkipDocType(old(curPtr), 1)
              case None => !ok
              case Some(t) => ok && curPtr == t
    {
      var num: nat := 1;
      var pCur := curPtr;
      while num != 0 && pCur != []
        invariant L.SkipDocType(pCur, num) == L.SkipDocType(curPtr, 1)
        decreases |pCur|
      {
        if pCur[0] == 0x3C {
          num := num + 1;
        } else if pCur[0] == 0x3E {
          num := num - 1;
        } else if pCur[0] == 0x22 {
          match Find(pCur[1..], [0x22]) {
            case None => return false;
            case Some(k) =>
              assert pCur[k + 1..][1..] == pCur[1..][k + 1..];
              pCur := pCur[k + 1..];
          }
        }
        pCur := pCur[1..];
      }
      if num == 0 {
        curPtr := pCur;
        return true;
      }
      return false;
    }

    /** Parser_skipProlog */
    method SkipProlog() returns (ok: bool)
      modifies `curPtr
      ensures match L.SkipProlog(old(curPtr))
              case None => !ok
              case Some(t) => ok && curPtr == t
    {
      hide L.SkipMisc, L.SkipDocType;
      SkipWhiteSpaces();
      if L.XMLDECL <= curPtr {
        ok := SkipString(L.END_PI);
        SkipWhiteSpaces();
        if !ok {
          return false;
        }
      }
      ok := SkipMisc();
      if ok && L.BEGIN_DOCTYPE <= curPtr {
        curPtr := curPtr[1..];
        ok := SkipDocType();
      }
      if ok {
        ok := SkipMisc();
      }
    }

    static lemma CopyLoopStep(s: Bytes, len: int)
      requires len > 0
      ensures var (c, n) := GetChar(s);
              if c <= 0 then CopyLoop(s, len) == (false, [])
              else
                var (ok, out) := CopyLoop(s[n..], len - n);
                CopyLoop(s, len) == (ok, (if n == 1 then [c] else IntToUtf8(c)) + out)
    {
    }

    static lemma CopyLoopEnd(s: Bytes, len: int)
      requires len <= 0
      ensures CopyLoop(s, len) == (len == 0, [])
    {
    }

    /** Parser_copyToken */
    method CopyToken(src: Bytes, len: int) returns (ok: bool)
      modifies `tokenBuf
      ensures ok == Escape.CopyToken(src, len).0 && tokenBuf == old(tokenBuf) + Escape.CopyToken(src, len).1
    {
      hide GetChar, IntToUtf8, CopyLoop;
      if len <= 0 {
        return false;
      }
      var psrc, left := src, len;
      ghost var done: Bytes := [];
      while left > 0
        invariant CopyLoop(src, len).0 == CopyLoop(psrc, left).0
        invariant CopyLoop(src, len).1 == done + CopyLoop(psrc, left).1
        invariant tokenBuf == old(tokenBuf) + done
        decreases |psrc|
      {
        var c, cl := ReadChar(psrc);
        CopyLoopStep(psrc, left);
        if c <= 0 {
          return false;
        }
        var piece := if cl == 1 then [c] else IntToUtf8(c);
        ghost var rest := CopyLoop(psrc[cl..], left - cl).1;
        assert done + (piece + rest) == done + piece + rest;
        assert old(tokenBuf) + done + piece == old(tokenBuf) + (done + piece);
        tokenBuf := tokenBuf + piece;
        done := done + piece;
        psrc := psrc[cl..];
        left := left - cl;
      }
      CopyLoopEnd(psrc, left);
      return left == 0;
    }

    /** The part of Parser_getNextToken that measures the token at s. */
    static method MeasureToken(s: Bytes) returns (tokenLength: Option<nat>)
      ensures tokenLength == L.TokenLength(s)
    {
      hide L.NameRun, Utf8ToInt, IsNameChar;
      var c := At(s, 0);
      if c == 0x22 || c == 0x27 {
        return Some(1);
      } else if c == 0x3C {
        var temp := Utf8ToInt(s[1..]).0;
        var isName := ParserIsNameChar(temp, false);
        if temp == 0x2F {
          return Some(2);
        } else if isName {
          return Some(1);
        }
        return None;
      } else if c == 0x3D {
        return Some(1);
      } else if c == 0x2F {
        return Some(if At(s, 1) == 0x3E then 2 else 0);
      } else if c == 0x3E {
        return Some(1);
      }
      var (temp, tlen) := Utf8ToInt(s);
      var isName := ParserIsNameChar(temp, false);
      if !isName {
        return None;
      }
      L.NameStartByte(s, false);
      var len := MeasureName(s, tlen);
      return Some(len);
    }

    /** Parser_getNextToken */
    method GetNextToken() returns (tokenLength: int)
      modifies `curPtr, `savePtr, `tokenBuf
      ensures tokenLength == P.NextToken(old(View())).0 && View() == P.NextToken(old(View())).1
    {
      hide L.SkipMisc, L.TokenLength, CopyLoop;
      tokenBuf := [];
      if curPtr == [] {
        return 0;
      }
      var ok := SkipMisc();
      if !ok {
        return 0;
      }
      var measured := MeasureToken(curPtr);
      if measured.None? {
        return 0;
      }
      var len := measured.value;
      if L.COMPLETETAG <= curPtr {
        savePtr := curPtr;
      }
      ok := CopyToken(curPtr, len);
      if !ok {
        return 0;
      }
      curPtr := curPtr[len..];
      return len;
    }

    // ---- nodes ----

    /** The step delivered: the event and the new state; after a failure the state does not matter. */
    ghost predicate Delivers(code: Code, ev: P.Event, step: P.Step)
      reads this
    {
      match step
      case Ok(e, st) => code == Done && ev == e && View() == st
      case FileDone => code == FileDone
      case Failed => code == Failed
      case NullAccess => code == NullAccess
    }

    /** The new state is known, or there is none. */
    ghost predicate Became(ok: bool, st: Option<P.State>)
      reads this
    {
      match st
      case None => !ok
      case Some(p) => ok && View() == p
    }

    /** Parser_processSTag */
    method ProcessSTag() returns (code: Code, ev: P.Event)
      modifies `curPtr, `savePtr, `tokenBuf, `lastElem, `state
      ensures Delivers(code, ev, P.ProcessSTag(old(View())))
    {
      hide P.NextToken;
      ev := P.NoNode;
      var n := GetNextToken();
      if n == 0 {
        return Failed, ev;
      }
      var nodeName := tokenBuf;
      lastElem := nodeName;
      savePtr := curPtr;
      n := GetNextToken();
      if n == 0 {
        return Failed, ev;
      }
      if tokenBuf == L.COMPLETETAG {
        state := P.ElementMode;
        curPtr := savePtr;
      } else if tokenBuf == [0x3E] {
        state := P.ContentMode;
      } else {
        state := P.AttributeMode;
        curPtr := savePtr;
      }
      return Done, P.StartElement(nodeName);
    }

    /** Parser_processETag */
    method ProcessETag() returns (code: Code, ev: P.Event)
      modifies `curPtr, `savePtr, `tokenBuf
      ensures Delivers(code, ev, P.ProcessETag(old(View())))
    {
      hide P.NextToken;
      ev := P.NoNode;
      var n := GetNextToken();
      if n == 0 {
        return Failed, ev;
      }
      var nodeName := tokenBuf;
      SkipWhiteSpaces();
      n := GetNextToken();
      if n == 0 || tokenBuf != [0x3E] {
        return Failed, ev;
      }
      return Done, P.EndElement(nodeName);
    }

    /** The check for `<` up to the closing quote at len. */
    static method CheckQuoted(s: Bytes, len: nat) returns (ok: bool)
      requires len <= |s|
      ensures ok == P.NoLessThan(s, len)
    {
      var pCur := 0;
      while pCur < len
        invariant pCur <= len + 1
        invariant pCur <= |s| ==> P.NoLessThan(s, len) == P.NoLessThan(s[pCur..], len - pCur)
        invariant pCur > |s| ==> P.NoLessThan(s, len)
      {
        if s[pCur] == 0x3C {
          return false;
        }
        if s[pCur] == 0x26 {
          pCur := pCur + 1;
        }
        pCur := pCur + 1;
      }
      return true;
    }

    /** The part of Parser_processAttribute that reads the quoted value. */
    method AttributeValue() returns (ok: bool, value: Bytes)
      modifies `curPtr, `savePtr, `tokenBuf
      ensures match P.AttributeValue(old(View()))
              case None => !ok
              case Some((v, st)) => ok && value == v && View() == st
    {
      hide P.NextToken, CopyLoop, P.NoLessThan, Find;
      value := [];
      var n := GetNextToken();
      if n == 0 || tokenBuf[0] !in {0x22, 0x27} {
        return false, [];
      }
      match Find(curPtr, tokenBuf) {
        case None => return false, [];
        case Some(strEndQuote) =>
          var legal := CheckQuoted(curPtr, strEndQuote);
          if !legal {
            return false, [];
          }
          tokenBuf := [];
          if strEndQuote != 0 {
            var copied := CopyToken(curPtr, strEndQuote);
            if !copied {
              return false, [];
            }
          }
          curPtr := curPtr[strEndQuote + 1..];
          return true, tokenBuf;
      }
    }

    /** The search for a prefix in the declarations of an element. */
    static method FindDecl(decls: seq<Decl>, prefix: Bytes) returns (pNs: nat)
      ensures pNs == DeclOf(decls, prefix)
    {
      pNs := 0;
      while pNs < |decls| && decls[pNs].prefix != prefix
        invariant pNs <= DeclOf(decls, prefix)
      {
        pNs := pNs + 1;
      }
    }

    /** Parser_getNameSpace */
    static method GetNameSpace(pCur: StackItem, prefix: Bytes) returns (namespaceUri: Option<Bytes>)
      ensures namespaceUri == Namespaces.GetNameSpace(pCur, prefix)
    {
      if pCur.Prefix() != Some(prefix) {
        var pNsUri := FindDecl(pCur.decls, prefix);
        if pNsUri < |pCur.decls| {
          return Some(pCur.decls[pNsUri].nsURI);
        }
        return None;
      }
      return pCur.namespaceUri;
    }

    /** Parser_addNamespace */
    method AddNamespace() returns (code: Code)
      requires elementStack != [] && needPrefix.Some?
      modifies `needPrefix
      ensures match Namespaces.AddNamespace(old(needPrefix).value, elementStack[0])
              case Resolved(need) => code == Done && needPrefix == need
              case Refused => code == Failed
              case NullString => code == NullAccess
    {
      var nodeName, pCur := needPrefix.value, elementStack[0];
      match PrefixOf(nodeName) {
        case None =>
          if nodeName != pCur.element {
            return Failed;
          }
          needPrefix := None;
        case Some(prefix) =>
          if nodeName != pCur.element {
            if pCur.Prefix().None? {
              return NullAccess;
            }
            if Some(prefix) != pCur.Prefix() {
              return Failed;
            }
          }
          var namespaceUri := GetNameSpace(pCur, pCur.Prefix().value);
          if namespaceUri.Some? {
            needPrefix := None;
          }
      }
      return Done;
    }

    /** Parser_xmlNamespace */
    method XmlNamespace(name: Bytes, value: Bytes) returns (code: Code)
      requires elementStack != []
      modifies `elementStack, `needPrefix
      ensures Delivers(code, P.NoNode, P.XmlNamespace(old(View()), name, value))
    {
      hide Namespaces.AddNamespace;
      var pCur := elementStack[0];
      if name == XMLNS {
        pCur := pCur.(namespaceUri := Some(value));
      } else if XMLNS + COLON <= name {
        var localName := name[6..];
        if pCur.Prefix() == Some(localName) {
          pCur := pCur.(namespaceUri := Some(value));
        } else {
          var pNs := FindDecl(pCur.decls, localName);
          if pNs == |pCur.decls| {
            pCur := pCur.(decls := pCur.decls + [Decl(localName, value)]);
          } else {
            pCur := pCur.(decls := pCur.decls[pNs := Decl(localName, value)]);
          }
        }
      }
      elementStack := [pCur] + elementStack[1..];
      code := Done;
      if needPrefix.Some? {
        code := AddNamespace();
      }
    }

    /** The part of Parser_processAttribute that looks for more attributes. */
    method ReadAhead() returns (ok: bool)
      modifies `curPtr, `savePtr, `tokenBuf, `state
      ensures Became(ok, P.AfterAttribute(old(View())))
    {
      hide P.NextToken;
      savePtr := curPtr;
      var n := GetNextToken();
      if n == 0 || tokenBuf == [0x3C] {
        return false;
      } else if tokenBuf != [0x3E] {
        curPtr := savePtr;
      } else {
        state := P.ContentMode;
      }
      return true;
    }

    /** Parser_processAttribute */
    method ProcessAttribute() returns (code: Code, ev: P.Event)
      requires elementStack != []
      modifies `curPtr, `savePtr, `tokenBuf, `elementStack, `needPrefix, `state
      ensures Delivers(code, ev, P.ProcessAttribute(old(View())))
    {
      hide P.NextToken, P.AttributeValue, P.AfterAttribute, P.XmlNamespace, IsNameChar, Utf8ToInt;
      ev := P.NoNode;
      if tokenBuf == [] {
        return Failed, ev;
      }
      var isName := ParserIsNameChar(Utf8ToInt(tokenBuf).0, false);
      if !isName {
        return Failed, ev;
      }
      var nodeName := tokenBuf;
      var n := GetNextToken();
      if n == 0 || tokenBuf[0] != 0x3D {
        return Failed, ev;
      }
      var ok, nodeValue := AttributeValue();
      if !ok {
        return Failed, ev;
      }
      code := XmlNamespace(nodeName, nodeValue);
      if code != Done {
        return code, ev;
      }
      ok := ReadAhead();
      if !ok {
        return Failed, ev;
      }
      return Done, P.Attribute(nodeName, nodeValue);
    }

    static lemma CDataStep(s: Bytes)
      ensures P.CDataLength(s) ==
                if s == [] || s[0] >= 0x80 || !IsXmlChar(s[0]) || CDEND <= s then 0 else 1 + P.CDataLength(s[1..])
    {
    }

    /** Parser_processCDSect */
    static method ProcessCDSect(s: Bytes) returns (ok: bool, value: Bytes, behind: Bytes)
      requires CDSTART <= s
      ensures match P.ProcessCDSect(s)
              case None => !ok
              case Some((v, t)) => ok && value == v && behind == t
    {
      hide IsXmlChar, P.CDataLength;
      var t := s[|CDSTART|..];
      var pEnd := 0;
      assert t[0..] == t;
      while pEnd < |t| && t[pEnd] < 0x80 && IsXmlChar(t[pEnd]) && !(CDEND <= t[pEnd..])
        invariant pEnd <= |t| && P.CDataLength(t) == pEnd + P.CDataLength(t[pEnd..])
      {
        CDataStep(t[pEnd..]);
        assert t[pEnd..][1..] == t[pEnd + 1..];
        pEnd := pEnd + 1;
      }
      CDataStep(t[pEnd..]);
      if pEnd > 0 && pEnd < |t| {
        return true, t[..pEnd], if pEnd + |CDEND| <= |t| then t[pEnd + |CDEND|..] else [];
      }
      return false, [], [];
    }

    /** The scan for the end of character data. */
    static method MeasureText(s: Bytes) returns (pEndContent: nat)
      ensures pEndContent == P.TextLength(s)
    {
      pEndContent := 0;
      while pEndContent < |s| && s[pEndContent] != 0x3C && !(CDEND <= s[pEndContent..])
        invariant pEndContent <= |s| && P.TextLength(s) == pEndContent + P.TextLength(s[pEndContent..])
      {
        assert s[pEndContent..][1..] == s[pEndContent + 1..];
        pEndContent := pEndContent + 1;
      }
    }

    /** Parser_processContent */
    method ProcessContent() returns (code: Code, ev: P.Event)
      requires curPtr != []
      modifies `curPtr, `savePtr, `tokenBuf, `state
      ensures Delivers(code, ev, P.ProcessContent(old(View())))
    {
      hide Escape.CopyToken, P.ProcessCDSect, L.SkipComment, L.SkipPI, SkipWhite, P.TextLength, Delivers;
      ev := P.NoNode;
      savePtr := curPtr;
      SkipWhiteSpaces();
      if curPtr == [] {
        DeliverState(ev);
        return Done, ev;
      }
      if curPtr[0] == 0x3C {
        if CDSTART <= curPtr {
          var ok, value, behind := ProcessCDSect(curPtr);
          if !ok {
            DeliverFailure();
            return Failed, ev;
          }
          curPtr := behind;
          DeliverState(P.CDataNode(value));
          return Done, P.CDataNode(value);
        } else if L.BEGIN_COMMENT <= curPtr {
          var ok := SkipComment();
          if !ok {
            DeliverFailure();
            return Failed, ev;
          }
          DeliverState(ev);
          return Done, ev;
        } else if L.BEGIN_PI <= curPtr {
          match L.SkipPI(curPtr) {
            case None =>
              DeliverFailure();
              return Failed, ev;
            case Some(t) =>
              curPtr := t;
              DeliverState(ev);
              return Done, ev;
          }
        }
        state := P.ElementMode;
        DeliverState(ev);
        return Done, ev;
      }
      curPtr := savePtr;
      var tokenLength := MeasureText(curPtr);
      if CDEND <= curPtr[tokenLength..] {
        DeliverFailure();
        return Failed, ev;
      }
      tokenBuf := [];
      var ok := CopyToken(curPtr, tokenLength);
      assert tokenBuf == Escape.CopyToken(curPtr, tokenLength).1;
      if !ok || tokenBuf == [] {
        DeliverFailure();
        return Failed, ev;
      }
      curPtr := curPtr[tokenLength..];
      DeliverState(P.TextNode(tokenBuf));
      return Done, P.TextNode(tokenBuf);
    }

    /** Parser_getNextNode */
    method GetNextNode() returns (code: Code, ev: P.Event)
      modifies `curPtr, `savePtr, `tokenBuf, `state, `lastElem, `elementStack, `needPrefix
      ensures Delivers(code, ev, P.GetNextNode(old(View())))
      ensures old(curPtr) == [] ==> View() == old(View())
    {
      hide P.NextToken, P.ProcessContent, P.ProcessSTag, P.ProcessETag, P.ProcessAttribute, SkipWhite, Delivers;
      ev := P.NoNode;
      if curPtr == [] {
        DeliverEnd();
        return FileDone, ev;
      }
      if state == P.ContentMode {
        code, ev := ProcessContent();
        return;
      }
      SkipWhiteSpaces();
      var n := GetNextToken();
      if n == 0 && elementStack == [] && curPtr == [] {
        DeliverState(ev);
        return Done, ev;
      }
      if tokenBuf == [] {
        DeliverFailure();
        return Failed, ev;
      }
      if tokenBuf[0] == 0x3E {
        DeliverState(ev);
        return Done, ev;
      } else if tokenBuf == L.ENDTAG {
        code, ev := ProcessETag();
      } else if tokenBuf[0] == 0x3C {
        code, ev := ProcessSTag();
      } else if tokenBuf == L.COMPLETETAG {
        if lastElem == [] {
          DeliverFailure();
          return Failed, ev;
        }
        DeliverState(P.EndElement(lastElem));
        return Done, P.EndElement(lastElem);
      } else if state == P.AttributeMode && elementStack != [] {
        code, ev := ProcessAttribute();
      } else {
        DeliverFailure();
        return Failed, ev;
      }
    }

    lemma DeliverState(ev: P.Event)
      ensures Delivers(Done, ev, P.Ok(ev, View()))
    {
    }

    lemma DeliverFailure()
      ensures Delivers(Failed, P.NoNode, P.Failed)
    {
    }

    lemma DeliverEnd()
      ensures Delivers(FileDone, P.NoNode, P.FileDone)
    {
    }

    // ---- the document ----

    lemma InFootprint()
      requires dom.Valid(doc, path)
      ensures AttrNodes(dom.rows) <= dom.nodes && dom.t.kids.Keys <= dom.nodes && dom.currentNodePtr in dom.nodes
    {
      hide Builder.Valid;
      dom.CurrentInside(doc, path);
    }

    /** Parser_parseDocument on a text or CDATA node */
    method AppendLeaf(kind: D.NodeType, value: Bytes) returns (ok: bool)
      requires dom.Valid(doc, path) && (kind == D.TextNode || kind == D.CDataSectionNode)
      modifies `path, dom, dom.nodes
      ensures dom.Valid(doc, path) && fresh(dom.nodes - old(dom.nodes))
      ensures Became(ok, P.AppendToCurrent(old(View()), Leaf(kind, value)))
    {
      hide Builder.Valid, P.AppendToCurrent;
      InFootprint();
      AppendIs(View(), Leaf(kind, value));
      ok := dom.AppendLeaf(kind, value, doc, path);
      if ok {
        path := PathWith(path, Leaf(kind, value));
      }
    }

    /** The new element in the linked tree. */
    method EnterElement(name: Bytes)
      requires dom.Valid(doc, path)
      modifies `path, dom, dom.nodes
      ensures dom.Valid(doc, path) && fresh(dom.nodes - old(dom.nodes))
      ensures path == old(path) + [P.Frame(name, [], [])]
    {
      hide Builder.Valid;
      InFootprint();
      dom.OpenElement(name, doc, path);
      path := path + [P.Frame(name, [], [])];
    }

    /** The way back to the parent in the linked tree. */
    method LeaveElement()
      requires dom.Valid(doc, path) && path != []
      modifies `path, `doc, dom, dom.nodes
      ensures dom.Valid(doc, path) && dom.nodes == old(dom.nodes)
      ensures var k := |old(path)| - 1;
              var x := P.Closed(old(path)[k]);
              doc == DocWith(old(doc), old(path)[..k], x) && path == PathWith(old(path)[..k], x)
    {
      hide Builder.Valid;
      dom.CloseElement(doc, path);
      ghost var k := |path| - 1;
      ghost var x := P.Closed(path[k]);
      doc, path := DocWith(doc, path[..k], x), PathWith(path[..k], x);
    }

    /** Parser_ElementPrefixDefined */
    static method ElementPrefixDefined(stack: seq<StackItem>, prefix: Bytes) returns (defined: bool, nsURI: Option<Bytes>)
      ensures match PrefixDefined(stack, prefix)
              case None => !defined
              case Some(uri) => defined && nsURI == uri
    {
      var pCur := 0;
      while pCur < |stack|
        invariant pCur <= |stack| && PrefixDefined(stack, prefix) == PrefixDefined(stack[pCur..], prefix)
      {
        var item := stack[pCur];
        assert stack[pCur..][0] == item && stack[pCur..][1..] == stack[pCur + 1..];
        if item.Prefix() == Some(prefix) {
          return true, item.namespaceUri;
        }
        var pNsUri := FindDecl(item.decls, prefix);
        if pNsUri < |item.decls| {
          return true, Some(item.decls[pNsUri].nsURI);
        }
        pCur := pCur + 1;
      }
      return false, None;
    }

    /** Parser_hasDefaultNamespace */
    static method HasDefaultNamespace(stack: seq<StackItem>) returns (nsURI: Option<Bytes>)
      ensures nsURI == DefaultNamespace(stack)
    {
      var pCur := 0;
      while pCur < |stack|
        invariant pCur <= |stack| && DefaultNamespace(stack) == DefaultNamespace(stack[pCur..])
      {
        assert stack[pCur..][0] == stack[pCur] && stack[pCur..][1..] == stack[pCur + 1..];
        if stack[pCur].Prefix() == None && stack[pCur].namespaceUri.Some? {
          return stack[pCur].namespaceUri;
        }
        pCur := pCur + 1;
      }
      return None;
    }

    /** The namespace of a new element, as far as it is known. */
    method ElementNamespace(name: Bytes) returns (namespaceURI: Option<Bytes>)
      modifies `needPrefix
      ensures Scopes([StackItem(name, namespaceURI, [])] + elementStack, needPrefix)
           == Enter(Scopes(elementStack, old(needPrefix)), name, state.AttributeMode?)
    {
      match PrefixOf(name) {
        case Some(prefix) =>
          var defined, nsURI := ElementPrefixDefined(elementStack, prefix);
          if !defined {
            needPrefix := Some(name);
            return None;
          }
          return Some(if nsURI.Some? then nsURI.value else []);
        case None =>
          var nsURI := HasDefaultNamespace(elementStack);
          if nsURI.None? && state == P.AttributeMode {
            needPrefix := Some(name);
          }
          return nsURI;
      }
    }

    /** The new element in the linked tree, its namespace, and Parser_pushElement. */
    method PushElement(name: Bytes)
      requires dom.Valid(doc, path)
      modifies `path, `elementStack, `needPrefix, `tags, dom, dom.nodes
      ensures dom.Valid(doc, path) && fresh(dom.nodes - old(dom.nodes))
      ensures path == old(path) + [P.Frame(name, [], [])]
      ensures Scopes(elementStack, needPrefix)
           == Enter(Scopes(old(elementStack), old(needPrefix)), name, state.AttributeMode?)
      ensures tags == old(tags) + [P.Open(name)]
    {
      hide Builder.Valid, Enter;
      dom.NodesAllocated();
      var namespaceURI := ElementNamespace(name);
      EnterElement(name);
      elementStack := [StackItem(name, namespaceURI, [])] + elementStack;
      tags := tags + [P.Open(name)];
    }

    /** Parser_processElementName */
    method ProcessElementName(name: Bytes) returns (ok: bool)
      requires dom.Valid(doc, path)
      modifies `hasTopLevel, `savePtr, `needPrefix, `path, `elementStack, `tags, dom, dom.nodes
      ensures dom.Valid(doc, path) && fresh(dom.nodes - old(dom.nodes))
      ensures Became(ok, P.ProcessElementName(old(View()), name))
    {
      hide Builder.Valid, P.AppendToCurrent, Enter;
      if hasTopLevel {
        if elementStack == [] {
          return false;
        }
      } else {
        hasTopLevel := true;
      }
      savePtr := curPtr;
      PushElement(name);
      return true;
    }

    /** Parser_processAttributeName */
    method ProcessAttributeName(name: Bytes, value: Bytes) returns (ok: bool)
      requires dom.Valid(doc, path)
      modifies `path, dom, dom.nodes
      ensures dom.Valid(doc, path) && fresh(dom.nodes - old(dom.nodes))
      ensures Became(ok, P.ProcessAttributeName(old(View()), name, value))
    {
      hide Builder.Valid, P.HasAttr;
      InFootprint();
      dom.CurrentKind(doc, path);
      if dom.currentNodePtr.nodeType == D.DocumentNode {
        return false;
      }
      var duplicate := dom.IsDuplicateAttribute(name, doc, path);
      if duplicate {
        return false;
      }
      dom.AddAttribute(name, value, doc, path);
      ghost var k := |path| - 1;
      path := path[k := path[k].(attrs := path[k].attrs + [Attr(name, value)])];
      return true;
    }

    /** The current node is an element of this name. */
    method CurrentNodeIs(name: Bytes) returns (same: bool)
      requires dom.Valid(doc, path)
      ensures dom.Valid(doc, path) && (same <==> path != [] && path[|path| - 1].name == name)
    {
      hide Builder.Valid;
      dom.CurrentKind(doc, path);
      if dom.currentNodePtr.nodeType == D.DocumentNode {
        return false;
      }
      dom.CurrentName(doc, path);
      return dom.currentNodePtr.nodeName == name;
    }

    /** Parser_eTagVerification, with Parser_popElement, and the change to content mode */
    method VerifyEndTag(name: Bytes) returns (ok: bool)
      requires dom.Valid(doc, path)
      modifies `elementStack, `path, `doc, `state, `tags, dom, dom.nodes
      ensures dom.Valid(doc, path) && fresh(dom.nodes - old(dom.nodes))
      ensures Became(ok, P.VerifyEndTag(old(View()), name))
    {
      hide Builder.Valid, P.AppendToCurrent, DocWith, PathWith;
      if elementStack == [] || elementStack[0].element != name {
        return false;
      }
      elementStack := elementStack[1..];
      var same := CurrentNodeIs(name);
      if !same {
        return false;
      }
      ghost var k := |path| - 1;
      ghost var closed := P.Closed(path[k]);
      LeaveElement();
      state := P.ContentMode;
      tags := tags + [P.Close(name)];
      AppendIs(old(View()).(stack := elementStack, path := old(path)[..k], mode := state, tags := tags), closed);
      return true;
    }

    /** The switch of Parser_parseDocument. */
    method Apply(ev: P.Event) returns (ok: bool)
      requires dom.Valid(doc, path)
      modifies this, dom, dom.nodes
      ensures dom.Valid(doc, path) && fresh(dom.nodes - old(dom.nodes))
      ensures Became(ok, P.Apply(ev, old(View())))
    {
      hide P.AppendToCurrent, P.ProcessElementName, P.ProcessAttributeName, P.VerifyEndTag, Builder.Valid;
      match ev {
        case NoNode => ok := true;
        case StartElement(name) => ok := ProcessElementName(name);
        case EndElement(name) => ok := VerifyEndTag(name);
        case Attribute(name, value) => ok := ProcessAttributeName(name, value);
        case TextNode(value) => ok := AppendLeaf(D.TextNode, value);
        case CDataNode(value) => ok := AppendLeaf(D.CDataSectionNode, value);
      }
    }

    /** The parser has come to this result, and the linked tree stands for the document. */
    ghost predicate Finished(code: Code, result: P.ParseResult)
      reads `doc, `tags
    {
      match result
      case Document(children, t) => code == Done && doc == children && tags == t
      case SyntaxError => code == Failed
      case NullDereference => code == NullAccess
    }

    /** One round of the loop: Done if there is another one, FileDone at the end of the input. */
    method Round() returns (rc: Code)
      requires dom.Valid(doc, path) && ParserInvariant.Invariant(View())
      modifies this, dom, dom.nodes
      ensures dom.Valid(doc, path) && fresh(dom.nodes - old(dom.nodes))
      ensures rc == Done ==>
                && P.ParseLoop(View()) == P.ParseLoop(old(View())) && ParserInvariant.Invariant(View())
                && (|curPtr| < |old(curPtr)| || (|curPtr| == |old(curPtr)| && old(state).ContentMode? && !state.ContentMode?))
      ensures rc == FileDone ==> View() == old(View()) && curPtr == []
      ensures rc == Failed ==> P.ParseLoop(old(View())) == P.SyntaxError
      ensures rc == NullAccess ==> P.ParseLoop(old(View())) == P.NullDereference
    {
      hide P.GetNextNode, P.Apply, Builder.Valid, ParserInvariant.Invariant;
      dom.NodesAllocated();
      ghost var p := View();
      var ev;
      rc, ev := GetNextNode();
      if rc != Done {
        return;
      }
      if ev.EndElement? && elementStack == [] {
        return NullAccess;
      }
      ParserInvariant.RoundKeeps(p);
      var ok := Apply(ev);
      if !ok {
        return Failed;
      }
    }

    /** Parser_parseDocument, on a new parser. The loop ends on every input. */
    method ParseDocument(ghost input: Bytes) returns (code: Code)
      requires View() == P.InitialState(input) && dom.Valid(doc, path)
      modifies this, dom, dom.nodes
      ensures Finished(code, P.Parse(input)) && fresh(dom.nodes - old(dom.nodes))
      ensures code == Done ==>
                && dom.Valid(doc, [])
                && dom.gRootDoc.nodeType == D.DocumentNode && Printer.Shows(dom.gRootDoc.firstChild, doc, dom.nodes)
    {
      hide P.GetNextNode, P.Apply, P.ParseLoop, L.SkipProlog, Builder.Valid, Printer.Shows, ParserInvariant.Invariant;
      dom.NodesAllocated();
      var ok := SkipProlog();
      if !ok {
        return Failed;
      }
      ParserInvariant.InitialInvariant(curPtr);
      var rc := Done;
      while rc == Done
        invariant rc == Done || rc == FileDone
        invariant P.ParseLoop(View()) == P.Parse(input) && ParserInvariant.Invariant(View())
        invariant dom.Valid(doc, path) && fresh(dom.nodes - old(dom.nodes))
        invariant rc == FileDone ==> curPtr == []
        decreases rc == Done, |curPtr|, if state == P.ContentMode then 1 else 0
      {
        rc := Round();
        if rc == Failed || rc == NullAccess {
          return rc;
        }
      }
      LoopEnd();
      if elementStack != [] {
        return Failed;
      }
      NothingOpen();
      dom.ShowsDocument(doc);
      return Done;
    }

    lemma NothingOpen()
      requires ParserInvariant.Invariant(View()) && elementStack == []
      ensures path == []
    {
      ParserInvariant.NamesUpLength(path);
    }

    /** At the end of the input. */
    lemma LoopEnd()
      requires curPtr == []
      ensures P.ParseLoop(View()) == if elementStack == [] then P.Document(doc, tags) else P.SyntaxError
    {
      hide P.ProcessContent, P.NextToken;
    }
  }
}
