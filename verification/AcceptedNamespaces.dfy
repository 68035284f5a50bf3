/**
 * The namespaces of every accepted document pass. The walk over the finished tree differs from what the parser did only
 * where an element without attributes was left by the tag of another element: then the parser waits for a default
 * namespace of that element, but no attribute that follows can give it one.
 */
module AcceptedNamespaces {
  import opened CStrings
  import opened Utf8
  import opened XmlChars
  import opened Escape
  import opened XmlTree
  import opened Namespaces
  import opened NamespaceWalk
  import opened Lexer
  import opened Parser

  // ---- the walk so far ----

  /** The part of the walk inside an open element. */
  function WalkInside(s: Scopes, f: Frame): (w: Walked)
    ensures w.Passed? ==> w.scopes.stack != [] && w.scopes.stack[1..] == s.stack
  {
    match WalkStart(s, f.name, f.attrs)
    case Passed(t) => WalkNodes(t, f.children)
    case w => w
  }

  /** The walk over the finished nodes and the open elements. */
  function WalkPath(doc: seq<Node>, path: seq<Frame>): (w: Walked)
    ensures w.Passed? ==> |w.scopes.stack| == |path|
    decreases |path|
  {
    if path == [] then WalkNodes(Scopes([], None), doc)
    else
      match WalkPath(doc, path[..|path| - 1])
      case Passed(s) => WalkInside(s, path[|path| - 1])
      case w => w
  }

  lemma {:induction false} AttrsMore(s: Scopes, attrs: seq<Attr>, a: Attr)
    requires s.stack != []
    ensures WalkAttrs(s, attrs + [a]) == match WalkAttrs(s, attrs)
                                         case Passed(t) => WalkAttrs(t, [a])
                                         case w => w
    decreases |attrs|
  {
    hide DeclareTop, ResolveNeed;
    if attrs == [] {
      assert [] + [a] == [a];
    } else {
      var stack := DeclareTop(s.stack, attrs[0].name, attrs[0].value);
      assert (attrs + [a])[1..] == attrs[1..] + [a];
      DeclaredTop(s.stack, attrs[0].name, attrs[0].value);
      if ResolveNeed(s.need, stack).Resolved? {
        AttrsMore(Scopes(stack, ResolveNeed(s.need, stack).need), attrs[1..], a);
      }
    }
  }

  lemma DeclaredTop(stack: seq<StackItem>, name: Bytes, value: Bytes)
    requires stack != []
    ensures DeclareTop(stack, name, value) != []
  {
  }

  lemma {:induction false} NodesMore(s: Scopes, nodes: seq<Node>, n: Node)
    ensures WalkNodes(s, nodes + [n]) == match WalkNodes(s, nodes)
                                         case Passed(t) => WalkNodes(t, [n])
                                         case w => w
    decreases |nodes|
  {
    hide WalkElement;
    if nodes == [] {
      assert [] + [n] == [n];
    } else {
      assert (nodes + [n])[1..] == nodes[1..] + [n];
      if !nodes[0].Element? {
        NodesMore(s, nodes[1..], n);
      } else if WalkElement(s, nodes[0]).Passed? {
        NodesMore(WalkElement(s, nodes[0]).scopes, nodes[1..], n);
      }
    }
  }

  lemma OneNode(s: Scopes, n: Node)
    ensures WalkNodes(s, [n]) == if n.Element? then WalkElement(s, n) else Passed(s)
  {
    hide WalkElement;
    assert [n][1..] == [];
  }

  /** A finished node behind the current one. */
  lemma WalkAppended(p: State, n: Node)
    requires AppendToCurrent(p, n).Some?
    ensures var q := AppendToCurrent(p, n).value;
            WalkPath(q.doc, q.path) == match WalkPath(p.doc, p.path)
                                       case Passed(s) => WalkNodes(s, [n])
                                       case w => w
  {
    hide WalkNodes, WalkStart;
    var q := AppendToCurrent(p, n).value;
    if p.path == [] {
      NodesMore(Scopes([], None), p.doc, n);
    } else {
      var k := |p.path| - 1;
      assert q.path[..k] == p.path[..k];
      if WalkPath(p.doc, p.path[..k]).Passed? {
        var s := WalkPath(p.doc, p.path[..k]).scopes;
        var f := p.path[k];
        if WalkStart(s, f.name, f.attrs).Passed? {
          NodesMore(WalkStart(s, f.name, f.attrs).scopes, f.children, n);
        }
      }
    }
  }

  /** The end tag of the innermost element. */
  lemma WalkClosed(doc: seq<Node>, path: seq<Frame>)
    requires path != [] && WalkPath(doc, path).Passed?
    ensures var t, s := WalkPath(doc, path).scopes, WalkPath(doc, path[..|path| - 1]);
            s.Passed? && WalkNodes(s.scopes, [Closed(path[|path| - 1])]) == Passed(Scopes(t.stack[1..], t.need))
  {
    hide WalkStart;
    OneNode(WalkPath(doc, path[..|path| - 1]).scopes, Closed(path[|path| - 1]));
  }

  // ---- the parser and the walk ----

  /** The parser waits for an element without prefix where no default namespace is known. */
  predicate Idle(r: Scopes) {
    r.need.Some? && PrefixOf(r.need.value) == None && DefaultNamespace(r.stack) == None
  }

  /** The parser at r is where the walk at t is, or waits idly. */
  predicate Follows(r: Scopes, t: Scopes) {
    r.stack == t.stack && (t.need == None || t.need == r.need || Idle(r))
  }

  /** The same between the attributes of the top element. */
  predicate FollowsInTag(r: Scopes, t: Scopes) {
    r.stack == t.stack && r.stack != []
    && (t.need == None || t.need == r.need || (Idle(r) && r.stack[0].Prefix().Some?))
  }

  lemma EnterFollows(r: Scopes, t: Scopes, name: Bytes, attributeState: bool)
    requires Follows(r, t)
    ensures Follows(Enter(r, name, attributeState), Enter(t, name, attributeState))
    ensures attributeState ==> FollowsInTag(Enter(r, name, true), Enter(t, name, true))
  {
    hide PrefixOf, PrefixDefined;
    var r1 := Enter(r, name, attributeState);
    assert r1.stack[1..] == r.stack;
  }

  /** The tag was left without an attribute. */
  lemma LeftFollows(r: Scopes, s: Scopes, name: Bytes)
    requires FollowsInTag(r, Enter(s, name, true))
    ensures Follows(r, Enter(s, name, false))
  {
    hide PrefixOf, PrefixDefined;
    assert Enter(s, name, true).stack[1..] == s.stack;
  }

  /** An attribute the parser takes is taken by the walk. */
  lemma AttrFollows(r: Scopes, t: Scopes, a: Attr)
    requires FollowsInTag(r, t) && ResolveNeed(r.need, DeclareTop(r.stack, a.name, a.value)).Resolved?
    ensures var stack := DeclareTop(r.stack, a.name, a.value);
            var r1, t1 := Scopes(stack, ResolveNeed(r.need, stack).need), WalkAttrs(t, [a]);
            t1.Passed? && FollowsInTag(r1, t1.scopes)
  {
    hide PrefixOf, GetNameSpace, DeclareTop;
    var stack := DeclareTop(r.stack, a.name, a.value);
    DeclaredElement(r.stack, a.name, a.value);
    assert [a][1..] == [];
    if ResolveNeed(t.need, stack).Resolved? {
      var u := Scopes(stack, ResolveNeed(t.need, stack).need);
      assert WalkAttrs(t, [a]) == WalkAttrs(u, [a][1..]) == Passed(u);
    }
  }

  lemma DeclaredElement(stack: seq<StackItem>, name: Bytes, value: Bytes)
    requires stack != []
    ensures var r := DeclareTop(stack, name, value);
            r != [] && r[0].element == stack[0].element && r[0].Prefix() == stack[0].Prefix()
  {
  }

  lemma PopFollows(r: Scopes, t: Scopes)
    requires Follows(r, t) && r.stack != []
    ensures Follows(Scopes(r.stack[1..], r.need), Scopes(t.stack[1..], t.need))
  {
    hide PrefixOf;
  }

  // ---- the loop ----

  function Now(p: State): Scopes {
    Scopes(p.stack, p.need)
  }

  /** Between the attributes of the innermost element. */
  predicate InTag(p: State) {
    p.path != [] &&
    var k := |p.path| - 1;
    p.path[k].children == [] &&
    match WalkPath(p.doc, p.path[..k])
    case Passed(s) =>
      (match WalkAttrs(Enter(s, p.path[k].name, true), p.path[k].attrs)
       case Passed(t) => FollowsInTag(Now(p), t)
       case _ => false)
    case _ => false
  }

  predicate Outside(p: State) {
    match WalkPath(p.doc, p.path)
    case Passed(t) => Follows(Now(p), t)
    case _ => false
  }

  /** The walk over the tree so far has passed, and is where the parser is. */
  predicate Tracks(p: State) {
    if p.mode.AttributeMode? then InTag(p) else Outside(p)
  }

  lemma TagLeft(p: State)
    requires InTag(p)
    ensures Outside(p)
  {
    hide Follows, FollowsInTag, Enter, WalkAttrs;
    var k := |p.path| - 1;
    var s, f := WalkPath(p.doc, p.path[..k]).scopes, p.path[k];
    NoChildren(s, f);
    LastAttr(Now(p), s, f.name, f.attrs);
  }

  lemma NoChildren(s: Scopes, f: Frame)
    requires f.children == []
    ensures WalkInside(s, f) == WalkStart(s, f.name, f.attrs)
  {
  }

  lemma LastAttr(r: Scopes, s: Scopes, name: Bytes, attrs: seq<Attr>)
    requires var w := WalkAttrs(Enter(s, name, true), attrs); w.Passed? && FollowsInTag(r, w.scopes)
    ensures var w := WalkStart(s, name, attrs); w.Passed? && Follows(r, w.scopes)
  {
    hide Enter;
    if attrs == [] {
      LeftFollows(r, s, name);
    }
  }

  /** What the node delivered does to mode and namespaces. */
  predicate Touches(p: State, ev: Event, q: State) {
    match ev
    case Attribute(name, value) =>
      && p.mode.AttributeMode? && p.stack != [] && q.stack == DeclareTop(p.stack, name, value)
      && ResolveNeed(p.need, q.stack) == Resolved(q.need)
    case NoNode => Now(q) == Now(p) && (q.mode.AttributeMode? <==> p.mode.AttributeMode?)
    case StartElement(_) => Now(q) == Now(p)
    case EndElement(_) => Now(q) == Now(p)
    case _ => Now(q) == Now(p) && !p.mode.AttributeMode? && !q.mode.AttributeMode?
  }

  lemma ContentTouches(p: State)
    requires p.rest != [] && p.mode.ContentMode? && ProcessContent(p).Ok?
    ensures Touches(p, ProcessContent(p).ev, ProcessContent(p).st)
  {
    hide CopyToken, ProcessCDSect, TextLength, SkipWhite, SkipComment, SkipPI;
  }

  lemma TagTouches(p: State)
    ensures ProcessSTag(p).Ok? ==> Touches(p, ProcessSTag(p).ev, ProcessSTag(p).st)
    ensures ProcessETag(p).Ok? ==> Touches(p, ProcessETag(p).ev, ProcessETag(p).st)
  {
    hide GetNextToken, SkipWhite;
  }

  lemma AttributeTouches(p: State)
    requires p.mode.AttributeMode? && p.stack != [] && ProcessAttribute(p).Ok?
    ensures Touches(p, ProcessAttribute(p).ev, ProcessAttribute(p).st)
  {
    hide IsNameChar, Utf8ToInt, GetNextToken, CopyToken, NoLessThan, Find, DeclareTop, ResolveNeed;
  }

  lemma NodeTouches(p: State)
    requires GetNextNode(p).Ok?
    ensures Touches(p, GetNextNode(p).ev, GetNextNode(p).st)
  {
    hide GetNextToken, SkipWhite, ProcessSTag, ProcessETag, ProcessAttribute, ProcessContent, DeclareTop, ResolveNeed;
    if p.mode.ContentMode? {
      ContentTouches(p);
    } else {
      var p1 := NextToken(p.(rest := SkipWhite(p.rest))).1;
      TagTouches(p1);
      if p1.mode.AttributeMode? && p1.stack != [] && ProcessAttribute(p1).Ok? {
        AttributeTouches(p1);
      }
    }
  }

  lemma StartTracks(p: State, name: Bytes)
    requires Outside(p) && ProcessElementName(p, name).Some?
    ensures Tracks(ProcessElementName(p, name).value)
  {
    hide Follows, FollowsInTag, Enter;
    var q := ProcessElementName(p, name).value;
    var t := WalkPath(p.doc, p.path).scopes;
    var k := |p.path|;
    assert q.path[..k] == p.path && q.path[k] == Frame(name, [], []);
    EnterFollows(Now(p), t, name, p.mode.AttributeMode?);
    NoChildren(t, q.path[k]);
  }

  lemma EndTracks(p: State, name: Bytes)
    requires Outside(p) && VerifyEndTag(p, name).Some?
    ensures Tracks(VerifyEndTag(p, name).value)
  {
    hide Follows, WalkNodes;
    var k := |p.path| - 1;
    var t := WalkPath(p.doc, p.path).scopes;
    var p1 := p.(stack := p.stack[1..], path := p.path[..k], mode := ContentMode, tags := p.tags + [Close(name)]);
    WalkClosed(p.doc, p.path);
    WalkAppended(p1, Closed(p.path[k]));
    PopFollows(Now(p), t);
  }

  lemma AttributeTracks(p: State, q: State, name: Bytes, value: Bytes)
    requires InTag(p) && Touches(p, Attribute(name, value), q) && q.path == p.path && q.doc == p.doc
    requires ProcessAttributeName(q, name, value).Some?
    ensures InTag(ProcessAttributeName(q, name, value).value)
  {
    hide FollowsInTag, Enter, WalkAttrs, HasAttr;
    var a, r := Attr(name, value), ProcessAttributeName(q, name, value).value;
    var k := |p.path| - 1;
    var s, f := WalkPath(p.doc, p.path[..k]).scopes, p.path[k];
    assert r.path[..k] == p.path[..k];
    AttrsMore(Enter(s, f.name, true), f.attrs, a);
    AttrFollows(Now(p), WalkAttrs(Enter(s, f.name, true), f.attrs).scopes, a);
  }

  lemma LeafTracks(p: State, n: Node)
    requires Outside(p) && !n.Element? && AppendToCurrent(p, n).Some?
    ensures Outside(AppendToCurrent(p, n).value)
  {
    hide Follows;
    WalkAppended(p, n);
    OneNode(WalkPath(p.doc, p.path).scopes, n);
  }

  /** One round of the loop, whatever the input. */
  lemma RoundTracks(p: State)
    requires Tracks(p) && GetNextNode(p).Ok?
    ensures var r := Apply(GetNextNode(p).ev, GetNextNode(p).st);
            r.Some? ==> Tracks(r.value)
  {
    hide GetNextNode, WalkPath, Follows, FollowsInTag, WalkAttrs, AppendToCurrent, ProcessElementName,
         ProcessAttributeName, VerifyEndTag;
    var Ok(ev, q) := GetNextNode(p);
    NodeTouches(p);
    if p.mode.AttributeMode? {
      TagLeft(p);
    }
    match ev
    case NoNode =>
    case StartElement(name) =>
      if ProcessElementName(q, name).Some? {
        StartTracks(q, name);
      }
    case EndElement(name) =>
      if VerifyEndTag(q, name).Some? {
        EndTracks(q, name);
      }
    case Attribute(name, value) =>
      if ProcessAttributeName(q, name, value).Some? {
        AttributeTracks(p, q, name, value);
        TagLeft(ProcessAttributeName(q, name, value).value);
      }
    case TextNode(value) =>
      if AppendToCurrent(q, Text(value)).Some? {
        LeafTracks(q, Text(value));
      }
    case CDataNode(value) =>
      if AppendToCurrent(q, CData(value)).Some? {
        LeafTracks(q, CData(value));
      }
  }

  lemma {:induction false} LoopTracks(p: State)
    requires Tracks(p)
    ensures ParseLoop(p).Document? ==> NamespacesPass(ParseLoop(p).children)
    decreases |p.rest|, if p.mode.ContentMode? then 1 else 0
  {
    hide GetNextNode, Apply, WalkAttrs, Enter, Idle;
    match GetNextNode(p)
    case FileDone =>
    case Failed =>
    case NullAccess =>
    case Ok(ev, p1) =>
      match Apply(ev, p1)
      case None =>
      case Some(p2) =>
        RoundTracks(p);
        LoopTracks(p2);
  }

  /** Whatever bytes are parsed: the namespaces of an accepted document pass. */
  lemma AcceptedPasses(input: Bytes)
    ensures Parse(input).Document? ==> NamespacesPass(Parse(input).children)
  {
    hide ParseLoop, SkipProlog;
    match SkipProlog(input)
    case None =>
    case Some(rest) => LoopTracks(InitialState(rest));
  }
}
