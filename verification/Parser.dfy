/**
 * The pull parser (src/ixml/ixmlparser.c:503-1048, 1834-2508) as functions on its state.
 *
 * The DOM under construction is kept as the finished children of the document node and the
 * path of elements from the document to currentNodePtr, each with the attributes and children
 * it has so far. The element stack pCurElement is a separate field: that it names exactly the
 * elements on the path is a theorem (ParserInvariant), not part of the representation.
 */
module Parser {
  import opened CStrings
  import opened Utf8
  import opened XmlChars
  import opened Escape
  import opened XmlTree
  import opened Lexer
  import opened Namespaces

  /** PARSER_STATE */
  datatype Mode = ElementMode | AttributeMode | ContentMode

  /** An element whose end tag has not been read. */
  datatype Frame = Frame(name: Bytes, attrs: seq<Attr>, children: seq<Node>)

  /** One tag as the parse loop accepted it. */
  datatype Tag = Open(name: Bytes) | Close(name: Bytes)

  /**
   * struct _Parser together with the DOM it builds. `need` is the name of pNeedPrefixNode. `tags`
   * is not in the C code: it records the tags in the order in which they were accepted.
   */
  datatype State = State(
    rest: Bytes,             // curPtr
    save: Bytes,             // savePtr
    mode: Mode,              // state
    tok: Bytes,              // tokenBuf
    lastElem: Bytes,         // lastElem
    need: Option<Bytes>,     // pNeedPrefixNode
    hasTop: bool,            // bHasTopLevel
    stack: seq<StackItem>,   // pCurElement, top first
    path: seq<Frame>,        // the parent chain of currentNodePtr, outermost first
    doc: seq<Node>,          // finished children of the document node
    tags: seq<Tag>)

  /** What Parser_getNextNode delivers in newNode and bETag. */
  datatype Event =
    | NoNode
    | StartElement(name: Bytes)
    | EndElement(name: Bytes)
    | Attribute(name: Bytes, value: Bytes)
    | TextNode(value: Bytes)
    | CDataNode(value: Bytes)

  /** `NullAccess` marks the points where the C code would read through a NULL pointer. */
  datatype Step = Ok(ev: Event, st: State) | FileDone | Failed | NullAccess

  datatype ParseResult = Document(children: seq<Node>, tags: seq<Tag>) | SyntaxError | NullDereference

  /** Calls Parser_getNextToken on the state: curPtr, tokenBuf and savePtr change. */
  function NextToken(p: State): (r: (int, State))
    ensures |r.1.rest| <= |p.rest|
    ensures r.0 != 0 ==> |r.1.rest| < |p.rest|
    ensures r.0 != 0 ==> r.1.tok != []
    ensures r.0 == 0 && r.1.tok != [] ==> r.1.tok == ENDTAG && OverlongEndTag(r.1.rest)
    ensures r.1 == p.(rest := r.1.rest, tok := r.1.tok, save := r.1.save)
    ensures r.1.save == p.save || |r.1.rest| <= |r.1.save| <= |p.rest|
  {
    var t := GetNextToken(p.rest);
    (t.len, p.(rest := t.rest, tok := t.tok, save := if t.save.Some? then t.save.value else p.save))
  }

  /** Parser_processSTag, entered behind the token `<`. */
  function ProcessSTag(p: State): (r: Step)
    ensures r.Ok? ==> |r.st.rest| < |p.rest|
    ensures r.Ok? ==> r.ev.StartElement?
    ensures r.Ok? ==> SameTree(p, r.st)
  {
    var (n, p1) := NextToken(p);
    if n == 0 then Failed
    else
      var p2 := p1.(lastElem := p1.tok, save := p1.rest);
      var (m, p3) := NextToken(p2);
      if m == 0 then Failed
      else if p3.tok == COMPLETETAG then
        Ok(StartElement(p1.tok), p3.(mode := ElementMode, rest := p3.save))
      else if p3.tok == [0x3E] then
        Ok(StartElement(p1.tok), p3.(mode := ContentMode))
      else
        Ok(StartElement(p1.tok), p3.(mode := AttributeMode, rest := p3.save))
  }

  /** Parser_processETag, entered behind the token `</`. */
  function ProcessETag(p: State): (r: Step)
    ensures r.Ok? ==> |r.st.rest| < |p.rest|
    ensures r.Ok? ==> r.ev.EndElement?
    ensures r.Ok? ==> SameTree(p, r.st)
  {
    var (n, p1) := NextToken(p);
    if n == 0 then Failed
    else
      var (m, p2) := NextToken(p1.(rest := SkipWhite(p1.rest)));
      if m == 0 || p2.tok != [0x3E] then Failed
      else Ok(EndElement(p1.tok), p2)
  }

  /** The check for `<` before the closing quote; the byte behind an `&` is not looked at. */
  function NoLessThan(s: Bytes, len: int): bool
    decreases |s|
  {
    if len <= 0 || s == [] then true
    else if s[0] == 0x3C then false
    else if s[0] == 0x26 && |s| > 1 then NoLessThan(s[2..], len - 2)
    else NoLessThan(s[1..], len - 1)
  }

  /** The quoted value behind the `=` token: its bytes and the state behind the closing quote. */
  function AttributeValue(p: State): (r: Option<(Bytes, State)>)
    ensures r.Some? ==> |r.value.1.rest| < |p.rest| && SameTree(p, r.value.1) && r.value.1.mode == p.mode
    ensures r.Some? ==> r.value.1.need == p.need && r.value.1.stack == p.stack
  {
    var (n, p1) := NextToken(p);
    if n == 0 || p1.tok[0] !in {0x22, 0x27} then None
    else
      match Find(p1.rest, p1.tok)
      case None => None
      case Some(k) =>
        if !NoLessThan(p1.rest, k) then None
        else
          var (ok, value) := if k == 0 then (true, []) else CopyToken(p1.rest, k);
          if !ok then None
          else Some((value, p1.(tok := value, rest := p1.rest[k + 1..])))
  }

  /** The read-ahead that decides whether another attribute follows. */
  function AfterAttribute(p: State): (r: Option<State>)
    ensures r.Some? ==> |r.value.rest| <= |p.rest| && SameTree(p, r.value)
  {
    var (n, p1) := NextToken(p.(save := p.rest));
    if n == 0 || p1.tok == [0x3C] then None
    else if p1.tok != [0x3E] then Some(p1.(rest := p1.save))
    else Some(p1.(mode := ContentMode))
  }

  /** Parser_processAttribute, entered with the attribute name in the token buffer. */
  function ProcessAttribute(p: State): (r: Step)
    requires p.stack != []
    ensures r.Ok? ==> |r.st.rest| < |p.rest|
    ensures r.Ok? ==> r.ev.Attribute? && SameTree(p, r.st)
  {
    if p.tok == [] || !IsNameChar(Utf8ToInt(p.tok).0, false) then Failed
    else
      var name := p.tok;
      var (n, p1) := NextToken(p);
      if n == 0 || p1.tok[0] != 0x3D then Failed
      else
        match AttributeValue(p1)
        case None => Failed
        case Some((value, p2)) => AttributeRead(p2, name, value)
  }

  /** The end of Parser_processAttribute, behind the value. */
  function AttributeRead(p: State, name: Bytes, value: Bytes): (r: Step)
    requires p.stack != []
    ensures r.Ok? ==> |r.st.rest| <= |p.rest| && r.ev.Attribute? && SameTree(p, r.st)
  {
    match XmlNamespace(p, name, value)
    case Failed => Failed
    case NullAccess => NullAccess
    case Ok(_, p1) =>
      match AfterAttribute(p1)
      case None => Failed
      case Some(p2) => Ok(Attribute(name, value), p2)
  }

  /** Parser_xmlNamespace */
  function XmlNamespace(p: State, name: Bytes, value: Bytes): (r: Step)
    requires p.stack != []
    ensures !r.FileDone?
    ensures r.Ok? ==> SameTree(p, r.st) && r.st == p.(stack := r.st.stack, need := r.st.need)
  {
    var stack := DeclareTop(p.stack, name, value);
    match ResolveNeed(p.need, stack)
    case Resolved(need) => Ok(NoNode, p.(stack := stack, need := need))
    case Refused => Failed
    case NullString => NullAccess
  }

  /** The length of the CDATA text at s: the scan stops at `]]>`, at a NUL and at a non-ASCII byte. */
  function CDataLength(s: Bytes): (r: nat)
    ensures r <= |s|
  {
    if s == [] || s[0] >= 0x80 || !IsXmlChar(s[0]) || CDEND <= s then 0
    else 1 + CDataLength(s[1..])
  }

  /** Parser_processCDSect: the value and the suffix behind the section. */
  function ProcessCDSect(s: Bytes): (r: Option<(Bytes, Bytes)>)
    requires CDSTART <= s
    ensures r.Some? ==> |r.value.1| < |s|
  {
    var t := s[9..];
    var k := CDataLength(t);
    if k == 0 || k == |t| then None
    else Some((t[..k], if k + 3 <= |t| then t[k + 3..] else []))
  }

  /** The scan for the end of text: `<`, `]]>` or the end of the input. */
  function TextLength(s: Bytes): (r: nat)
    ensures r <= |s|
  {
    if s == [] || s[0] == 0x3C || CDEND <= s then 0 else 1 + TextLength(s[1..])
  }

  /** Parser_processContent */
  function ProcessContent(p: State): (r: Step)
    requires p.rest != []
    ensures r.Ok? ==> SameTree(p, r.st)
    ensures r.Ok? ==> |r.st.rest| < |p.rest|
                      || (|r.st.rest| == |p.rest| && r.st.mode.ElementMode? && r.ev.NoNode?)
    ensures r.Ok? ==> r.ev.NoNode? || r.ev.TextNode? || r.ev.CDataNode?
  {
    var p0 := p.(save := p.rest);
    var s := SkipWhite(p.rest);
    if s == [] then Ok(NoNode, p0.(rest := s))
    else if s[0] == 0x3C then
      if CDSTART <= s then
        match ProcessCDSect(s)
        case None => Failed
        case Some((value, t)) => Ok(CDataNode(value), p0.(rest := t))
      else if BEGIN_COMMENT <= s then
        match SkipComment(s)
        case None => Failed
        case Some(t) => Ok(NoNode, p0.(rest := t))
      else if BEGIN_PI <= s then
        match SkipPI(s)
        case None => Failed
        case Some(t) => Ok(NoNode, p0.(rest := t))
      else Ok(NoNode, p0.(rest := s, mode := ElementMode))
    else
      var k := TextLength(p.rest);
      if CDEND <= p.rest[k..] then Failed
      else
        var (ok, value) := CopyToken(p.rest, k);
        if !ok || value == [] then Failed
        else Ok(TextNode(value), p0.(tok := value, rest := p.rest[k..]))
  }

  /** The fields only the main loop touches are the same in both states; the stack may have other namespaces. */
  predicate SameTree(p: State, q: State) {
    q.hasTop == p.hasTop && Elements(q.stack) == Elements(p.stack) && q.path == p.path && q.doc == p.doc && q.tags == p.tags
  }

  /** Parser_getNextNode */
  function GetNextNode(p: State): (r: Step)
    ensures r.Ok? ==> SameTree(p, r.st)
    ensures r.Ok? ==> |r.st.rest| < |p.rest|
                      || (|r.st.rest| == |p.rest| && p.mode.ContentMode? && r.st.mode.ElementMode? && r.ev.NoNode?)
    ensures r.FileDone? <==> p.rest == []
  {
    if p.rest == [] then FileDone
    else if p.mode.ContentMode? then ProcessContent(p)
    else
      var (n, p1) := NextToken(p.(rest := SkipWhite(p.rest)));
      if n == 0 && p1.stack == [] && p1.rest == [] then Ok(NoNode, p1)
      else if p1.tok == [] then Failed
      else AfterToken(p, n, p1)
  }

  /** The dispatch of Parser_getNextNode on the token it has read. */
  function AfterToken(p: State, n: int, p1: State): (r: Step)
    requires p1.tok != [] && !p.mode.ContentMode? && p1.mode == p.mode
    requires SameTree(p, p1) && |p1.rest| <= |p.rest|
    requires if n == 0 then p1.tok == ENDTAG && OverlongEndTag(p1.rest) else |p1.rest| < |p.rest|
    ensures r.Ok? ==> SameTree(p, r.st)
    ensures r.Ok? ==> |r.st.rest| < |p.rest|
    ensures !r.FileDone?
  {
    if p1.tok[0] == 0x3E then Ok(NoNode, p1)
    else if p1.tok == ENDTAG then
      if n == 0 then OverlongStuck(p1.rest); ProcessETag(p1) else ProcessETag(p1)
    else if p1.tok[0] == 0x3C then ProcessSTag(p1)
    else if p1.tok == COMPLETETAG then
      if p1.lastElem == [] then Failed else Ok(EndElement(p1.lastElem), p1)
    else if p1.mode.AttributeMode? && p1.stack != [] then ProcessAttribute(p1)
    else Failed
  }

  /** ixmlNode_appendChild(currentNodePtr, node): only an element can go below the document. */
  function AppendToCurrent(p: State, node: Node): Option<State> {
    if p.path == [] then
      if node.Element? then Some(p.(doc := p.doc + [node])) else None
    else
      var k := |p.path| - 1;
      Some(p.(path := p.path[k := p.path[k].(children := p.path[k].children + [node])]))
  }

  /** Parser_processElementName: the top-level check, the namespace, the DOM node and the stack push. */
  function ProcessElementName(p: State, name: Bytes): (r: Option<State>)
    ensures r.Some? ==> r.value.rest == p.rest && r.value.mode == p.mode
  {
    if p.hasTop && p.stack == [] then None
    else
      var s := Enter(Scopes(p.stack, p.need), name, p.mode.AttributeMode?);
      Some(p.(hasTop := true, save := p.rest, need := s.need, stack := s.stack,
              path := p.path + [Frame(name, [], [])],
              tags := p.tags + [Open(name)]))
  }

  /** isDuplicateAttribute */
  predicate HasAttr(attrs: seq<Attr>, name: Bytes) {
    exists i | 0 <= i < |attrs| :: attrs[i].name == name
  }

  /** Parser_processAttributeName: duplicates are rejected, a new attribute goes last. */
  function ProcessAttributeName(p: State, name: Bytes, value: Bytes): (r: Option<State>)
    ensures r.Some? ==> r.value.rest == p.rest && r.value.mode == p.mode
  {
    if p.path == [] || HasAttr(p.path[|p.path| - 1].attrs, name) then None
    else
      var k := |p.path| - 1;
      Some(p.(path := p.path[k := p.path[k].(attrs := p.path[k].attrs + [Attr(name, value)])]))
  }

  /** The finished element of a frame. */
  function Closed(f: Frame): Node {
    Element(f.name, f.attrs, f.children)
  }

  /**
   * Parser_eTagVerification: the name must be on top of the element stack and must be the name of
   * the current node; the current node becomes its parent. For an empty stack see ParseLoop.
   */
  function VerifyEndTag(p: State, name: Bytes): (r: Option<State>)
    ensures r.Some? ==> r.value.rest == p.rest && r.value.mode == ContentMode
  {
    if p.stack == [] || p.stack[0].element != name then None
    else if p.path == [] || p.path[|p.path| - 1].name != name then None
    else
      var k := |p.path| - 1;
      var p1 := p.(stack := p.stack[1..], path := p.path[..k], mode := ContentMode, tags := p.tags + [Close(name)]);
      AppendToCurrent(p1, Closed(p.path[k]))
  }

  /** The switch of Parser_parseDocument on the node Parser_getNextNode delivered. */
  function Apply(ev: Event, p: State): (r: Option<State>)
    ensures r.Some? ==> r.value.rest == p.rest
    ensures r.Some? && !ev.EndElement? ==> r.value.mode == p.mode
  {
    match ev
    case NoNode => Some(p)
    case StartElement(name) => ProcessElementName(p, name)
    case EndElement(name) => VerifyEndTag(p, name)
    case Attribute(name, value) => ProcessAttributeName(p, name, value)
    case TextNode(value) => AppendToCurrent(p, Text(value))
    case CDataNode(value) => AppendToCurrent(p, CData(value))
  }

  /** Parser_isValidEndElement looks for the name in an empty stack. */
  predicate EndsNothing(ev: Event, p: State) {
    ev.EndElement? && p.stack == []
  }

  /**
   * The loop of Parser_parseDocument. It ends on every input: each round that goes on makes the
   * pair (bytes left, 1 in content mode and 0 otherwise) lexicographically smaller.
   */
  function ParseLoop(p: State): ParseResult
    decreases |p.rest|, if p.mode.ContentMode? then 1 else 0
  {
    match GetNextNode(p)
    case FileDone => if p.stack == [] then Document(p.doc, p.tags) else SyntaxError
    case Failed => SyntaxError
    case NullAccess => NullDereference
    case Ok(ev, p1) =>
      if EndsNothing(ev, p1) then NullDereference
      else
        match Apply(ev, p1)
        case None => SyntaxError
        case Some(p2) => ParseLoop(p2)
  }

  /** The state Parser_init and the prolog leave for the loop. */
  function InitialState(rest: Bytes): State {
    State(rest, [], ElementMode, [], [], None, false, [], [], [], [])
  }

  /** Parser_parseDocument */
  function Parse(input: Bytes): ParseResult {
    match SkipProlog(input)
    case None => SyntaxError
    case Some(rest) => ParseLoop(InitialState(rest))
  }
}
