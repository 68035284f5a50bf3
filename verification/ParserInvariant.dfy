/**
 * What every round of the parse loop keeps, and what follows for every document it accepts: the
 * element stack names the open elements, tags match, there is at most one top-level element and
 * no element has two attributes of one name (src/ixml/ixmlparser.c:528-615, 717-873, 945-1036).
 */
module ParserInvariant {
  import opened CStrings
  import opened XmlTree
  import opened Lexer
  import opened Namespaces
  import opened Parser

  /** The names on the parent chain of the current node, innermost first. */
  function NamesUp(path: seq<Frame>): seq<Bytes> {
    if path == [] then [] else [path[|path| - 1].name] + NamesUp(path[..|path| - 1])
  }

  predicate DistinctAttrs(attrs: seq<Attr>) {
    forall i, j | 0 <= i < j < |attrs| :: attrs[i].name != attrs[j].name
  }

  /** Every element of the forest has pairwise distinct attribute names. */
  predicate CleanNodes(nodes: seq<Node>) {
    nodes == [] ||
    (CleanNodes(nodes[1..]) &&
     (nodes[0].Element? ==> DistinctAttrs(nodes[0].attrs) && CleanNodes(nodes[0].children)))
  }

  /** The tags of a forest in document order. */
  function TagsOf(nodes: seq<Node>): seq<Tag> {
    if nodes == [] then []
    else
      (match nodes[0]
       case Element(name, _, children) => [Open(name)] + TagsOf(children) + [Close(name)]
       case Text(_) => []
       case CData(_) => [])
      + TagsOf(nodes[1..])
  }

  /** The tags of the open elements and of everything finished inside them. */
  function TagsOfPath(path: seq<Frame>): seq<Tag> {
    if path == [] then []
    else
      var k := |path| - 1;
      TagsOfPath(path[..k]) + [Open(path[k].name)] + TagsOf(path[k].children)
  }

  predicate CleanPath(path: seq<Frame>) {
    forall i | 0 <= i < |path| :: DistinctAttrs(path[i].attrs) && CleanNodes(path[i].children)
  }

  /** A stack machine that checks that tags match: it pushes at start tags and pops at equal end tags. */
  function Match(tags: seq<Tag>, open: seq<Bytes>): Option<seq<Bytes>> {
    if tags == [] then Some(open)
    else
      match tags[0]
      case Open(name) => Match(tags[1..], [name] + open)
      case Close(name) => if open != [] && open[0] == name then Match(tags[1..], open[1..]) else None
  }

  /** The loop invariant. */
  predicate Invariant(p: State) {
    && Elements(p.stack) == NamesUp(p.path)
    && (!p.hasTop ==> p.path == [] && p.doc == [])
    && |p.doc| + (if p.path == [] then 0 else 1) <= 1
    && (forall i | 0 <= i < |p.doc| :: p.doc[i].Element?)
    && CleanNodes(p.doc) && CleanPath(p.path)
    && p.tags == TagsOf(p.doc) + TagsOfPath(p.path)
  }

  lemma InitialInvariant(rest: Bytes)
    ensures Invariant(InitialState(rest))
  {
  }

  lemma NamesUpLength(path: seq<Frame>)
    ensures |NamesUp(path)| == |path|
  {
  }

  lemma {:induction false} TagsOfAppend(a: seq<Node>, b: seq<Node>)
    ensures TagsOf(a + b) == TagsOf(a) + TagsOf(b)
  {
    if a == [] {
      assert a + b == b;
    } else {
      assert (a + b)[1..] == a[1..] + b;
      TagsOfAppend(a[1..], b);
    }
  }

  lemma {:induction false} CleanAppend(a: seq<Node>, b: seq<Node>)
    requires CleanNodes(a) && CleanNodes(b)
    ensures CleanNodes(a + b)
  {
    if a == [] {
      assert a + b == b;
    } else {
      assert (a + b)[1..] == a[1..] + b;
      CleanAppend(a[1..], b);
    }
  }

  /** Changing only the attributes or children of the innermost frame. */
  lemma LastFrameChanged(path: seq<Frame>, f: Frame)
    requires path != [] && f.name == path[|path| - 1].name
    requires CleanPath(path) && DistinctAttrs(f.attrs) && CleanNodes(f.children)
    ensures var q := path[|path| - 1 := f];
            NamesUp(q) == NamesUp(path) && CleanPath(q)
            && TagsOfPath(q) == TagsOfPath(path[..|path| - 1]) + [Open(f.name)] + TagsOf(f.children)
  {
    var q := path[|path| - 1 := f];
    assert q[..|q| - 1] == path[..|path| - 1];
  }

  /** Appending a finished node below the current one: its tags come last. */
  lemma AppendKeeps(p: State, node: Node)
    requires Elements(p.stack) == NamesUp(p.path)
    requires CleanNodes(p.doc) && CleanPath(p.path) && CleanNodes([node])
    requires p.tags == TagsOf(p.doc) + TagsOfPath(p.path) + TagsOf([node])
    requires p.hasTop && (forall i | 0 <= i < |p.doc| :: p.doc[i].Element?)
    requires |p.doc| + (if p.path == [] && !node.Element? then 0 else 1) <= 1
    ensures AppendToCurrent(p, node).Some? ==> Invariant(AppendToCurrent(p, node).value)
  {
    if p.path == [] {
      TagsOfAppend(p.doc, [node]);
      CleanAppend(p.doc, [node]);
    } else {
      var k := |p.path| - 1;
      var f := p.path[k];
      TagsOfAppend(f.children, [node]);
      CleanAppend(f.children, [node]);
      LastFrameChanged(p.path, f.(children := f.children + [node]));
    }
  }

  lemma StartKeeps(p: State, name: Bytes)
    requires Invariant(p)
    ensures ProcessElementName(p, name).Some? ==> Invariant(ProcessElementName(p, name).value)
  {
    var r := ProcessElementName(p, name);
    if r.Some? {
      var path := r.value.path;
      assert path[..|path| - 1] == p.path;
      NamesUpLength(p.path);
    }
  }

  lemma AttributeKeeps(p: State, name: Bytes, value: Bytes)
    requires Invariant(p)
    ensures ProcessAttributeName(p, name, value).Some? ==> Invariant(ProcessAttributeName(p, name, value).value)
  {
    if ProcessAttributeName(p, name, value).Some? {
      var f := p.path[|p.path| - 1];
      LastFrameChanged(p.path, f.(attrs := f.attrs + [Attr(name, value)]));
    }
  }

  lemma EndKeeps(p: State, name: Bytes)
    requires Invariant(p)
    ensures VerifyEndTag(p, name).Some? ==> Invariant(VerifyEndTag(p, name).value)
  {
    if VerifyEndTag(p, name).Some? {
      var k := |p.path| - 1;
      var node := Closed(p.path[k]);
      var p1 := p.(stack := p.stack[1..], path := p.path[..k], mode := ContentMode, tags := p.tags + [Close(name)]);
      assert Elements(p.stack)[1..] == Elements(p.stack[1..]) && NamesUp(p.path)[1..] == NamesUp(p.path[..k]);
      assert TagsOf([node]) == [Open(name)] + TagsOf(p.path[k].children) + [Close(name)] + TagsOf([]);
      AppendKeeps(p1, node);
    }
  }

  /** One round of the loop keeps the invariant, whatever the input. */
  lemma RoundKeeps(p: State)
    requires Invariant(p) && GetNextNode(p).Ok?
    ensures var r := Apply(GetNextNode(p).ev, GetNextNode(p).st);
            r.Some? ==> Invariant(r.value)
  {
    hide GetNextNode;
    var Ok(ev, p1) := GetNextNode(p);
    match ev
    case NoNode =>
    case StartElement(name) => StartKeeps(p1, name);
    case EndElement(name) => EndKeeps(p1, name);
    case Attribute(name, value) => AttributeKeeps(p1, name, value);
    case TextNode(value) => LeafKeeps(p1, Text(value));
    case CDataNode(value) => LeafKeeps(p1, CData(value));
  }

  lemma LeafKeeps(p: State, node: Node)
    requires Invariant(p) && !node.Element?
    ensures AppendToCurrent(p, node).Some? ==> Invariant(AppendToCurrent(p, node).value)
  {
    assert TagsOf([node]) == [];
    if p.path != [] {
      AppendKeeps(p, node);
    }
  }

  /** From any state with the invariant, an accepted document is clean and its tag word is the tags read. */
  lemma {:induction false} LoopResult(p: State)
    requires Invariant(p)
    ensures var r := ParseLoop(p);
            r.Document? ==> |r.children| <= 1 && CleanNodes(r.children) && r.tags == TagsOf(r.children)
                            && forall i | 0 <= i < |r.children| :: r.children[i].Element?
    decreases |p.rest|, if p.mode.ContentMode? then 1 else 0
  {
    hide GetNextNode, Apply;
    match GetNextNode(p)
    case FileDone => NamesUpLength(p.path);
    case Failed =>
    case NullAccess =>
    case Ok(ev, p1) =>
      match Apply(ev, p1)
      case None =>
      case Some(p2) =>
        RoundKeeps(p);
        LoopResult(p2);
  }

  lemma MatchOpenClose(name: Bytes, tail: seq<Tag>, open: seq<Bytes>)
    ensures Match([Open(name)] + tail, open) == Match(tail, [name] + open)
    ensures Match([Close(name)] + tail, [name] + open) == Match(tail, open)
  {
    assert ([Open(name)] + tail)[1..] == tail;
    assert ([Close(name)] + tail)[1..] == tail;
    assert ([name] + open)[1..] == open;
  }

  lemma Regroup(a: seq<Tag>, b: seq<Tag>, c: seq<Tag>, d: seq<Tag>, e: seq<Tag>)
    ensures a + b + c + d + e == a + (b + (c + (d + e)))
  {
  }

  /** The tags of a forest match: the machine returns to the stack it started from. */
  lemma {:induction false} TagsMatch(nodes: seq<Node>, more: seq<Tag>, open: seq<Bytes>)
    ensures Match(TagsOf(nodes) + more, open) == Match(more, open)
    decreases nodes
  {
    hide Match;
    if nodes == [] {
      assert TagsOf(nodes) + more == more;
    } else {
      var tail := TagsOf(nodes[1..]) + more;
      TagsMatch(nodes[1..], more, open);
      if nodes[0].Element? {
        var name, children := nodes[0].name, nodes[0].children;
        TagsMatch(children, [Close(name)] + tail, [name] + open);
        MatchOpenClose(name, TagsOf(children) + ([Close(name)] + tail), open);
        MatchOpenClose(name, tail, open);
        Regroup([Open(name)], TagsOf(children), [Close(name)], TagsOf(nodes[1..]), more);
      } else {
        assert TagsOf(nodes) + more == tail;
      }
    }
  }

  /**
   * Whatever bytes are parsed: an accepted document has at most one child, which is an element; the
   * tags accepted along the way match each other and are exactly the tags of the tree; and no
   * element has two attributes of one name.
   */
  lemma AcceptedDocument(input: Bytes)
    ensures var r := Parse(input);
            r.Document? ==>
              && |r.children| <= 1 && (forall i | 0 <= i < |r.children| :: r.children[i].Element?)
              && CleanNodes(r.children)
              && r.tags == TagsOf(r.children)
              && Match(r.tags, []) == Some([])
  {
    match SkipProlog(input)
    case None =>
    case Some(rest) =>
      InitialInvariant(rest);
      LoopResult(InitialState(rest));
      var r := ParseLoop(InitialState(rest));
      if r.Document? {
        TagsMatch(r.children, [], []);
        assert TagsOf(r.children) + [] == TagsOf(r.children);
      }
  }
}
