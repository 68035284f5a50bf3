/**
 * The parser reads every document of the grammar, and delivers the document it stands for.
 */
module SourceRead {
  import opened CStrings
  import opened XmlTree
  import opened Namespaces
  import opened NamespaceWalk
  import opened Parser
  import opened ParserInvariant
  import opened TokenLemmas
  import opened References
  import opened Sources
  import opened SourceSteps

  /** From p the parse goes on exactly as from q, which has the given input, mode, namespaces and DOM. */
  ghost predicate Reaches(p: State, q: State, rest: Bytes, mode: Mode, s: Scopes, path: seq<Frame>, doc: seq<Node>) {
    && ParseLoop(p) == ParseLoop(q)
    && q.mode == mode && q.hasTop
    && q.rest == rest && q.stack == s.stack && q.need == s.need && q.path == path && q.doc == doc
  }

  /** From p the parse ends as the namespaces demand. */
  ghost predicate Ends(p: State, w: Walked) {
    match w
    case Passed(_) => true
    case Refusal => ParseLoop(p) == SyntaxError
    case NullRead => ParseLoop(p) == NullDereference
  }

  function ScopesOf(p: State): Scopes {
    Scopes(p.stack, p.need)
  }

  /** One round of the loop. */
  lemma {:induction false} OneRound(p: State) returns (q: State)
    requires GetNextNode(p).Ok? && Apply(GetNextNode(p).ev, GetNextNode(p).st).Some?
    requires !EndsNothing(GetNextNode(p).ev, GetNextNode(p).st)
    ensures q == Apply(GetNextNode(p).ev, GetNextNode(p).st).value
    ensures ParseLoop(p) == ParseLoop(q)
  {
    hide GetNextNode, Apply;
    q := Apply(GetNextNode(p).ev, GetNextNode(p).st).value;
  }

  /** A round that delivers no node. */
  lemma {:induction false} SkippingRound(p: State, r: Bytes, mode: Mode) returns (q: State)
    requires Delivers(GetNextNode(p), NoNode, p, r, mode, p.need, p.lastElem)
    ensures ParseLoop(p) == ParseLoop(q) && Moved(p, q, r, mode, p.need, p.lastElem)
  {
    hide GetNextNode, ParseLoop;
    q := OneRound(p);
  }

  // ---- attributes ----

  /** One attribute of a start tag is appended to the current element, or refused. */
  lemma {:induction false} AttrRead(p: State, a: Written, r: Bytes, f: Follow, top: Frame) returns (q: State)
    requires p.mode.AttributeMode? && p.stack != [] && p.hasTop
    requires p.path != [] && top == p.path[|p.path| - 1] && !HasAttr(top.attrs, a.name)
    requires LegalAttr(a) && Ahead(r, f) && p.rest == AttrBytes(a, r)
    ensures var b := Attr(a.name, Meant(a.value));
            var stack := DeclareTop(p.stack, b.name, b.value);
            match ResolveNeed(p.need, stack)
            case Resolved(need) =>
              && ParseLoop(p) == ParseLoop(q)
              && Moved(p.(stack := stack, path := p.path[|p.path| - 1 := top.(attrs := top.attrs + [b])]), q,
                       Behind(f, r), if f.Bracket? then ContentMode else AttributeMode, need, p.lastElem)
            case Refused => ParseLoop(p) == SyntaxError
            case NullString => ParseLoop(p) == NullDereference
  {
    hide GetNextNode, LegalAttr, AttrBytes, Ahead, DeclareTop, ResolveNeed, Meant;
    AttributeRound(p, a, r, f);
    q := p;
    if GetNextNode(p).Ok? {
      q := OneRound(p);
    }
  }

  /** What the read-ahead sees in front of an attribute. */
  function FollowAttr(a: Written, t: Bytes): Follow {
    More(a.gap, a.name, AttrBytes(a, t)[|a.gap| + |a.name|..])
  }

  lemma {:induction false} AttrAhead(a: Written, t: Bytes)
    requires LegalAttr(a)
    ensures Ahead(AttrBytes(a, t), FollowAttr(a, t))
  {
    hide ValidName, RawText, CorrectText;
    var s := a.before + ([0x3D] + (a.after + ([a.quote] + (RawText(a.value) + ([a.quote] + t)))));
    assert AttrBytes(a, t) == a.gap + (a.name + s);
    assert AttrBytes(a, t)[|a.gap| + |a.name|..] == s;
    BeforeEndsName(a.before, s);
  }

  lemma {:induction false} AttrsSplit(top: Frame, attrs: seq<Written>)
    requires attrs != [] && DistinctAttrs(top.attrs + MeantAttrs(attrs))
    ensures !HasAttr(top.attrs, attrs[0].name)
    ensures top.attrs + MeantAttrs(attrs)
         == (top.attrs + [Attr(attrs[0].name, Meant(attrs[0].value))]) + MeantAttrs(attrs[1..])
  {
    hide Meant;
    var all := top.attrs + MeantAttrs(attrs);
    assert all[|top.attrs|].name == attrs[0].name;
    assert forall i | 0 <= i < |top.attrs| :: all[i] == top.attrs[i];
  }

  /** All attributes of a start tag are appended to the current element, in order. */
  lemma {:induction false} AttrsRead(p: State, attrs: seq<Written>, r: Bytes, f: Follow, top: Frame) returns (q: State)
    requires p.mode.AttributeMode? && p.stack != [] && p.hasTop
    requires p.path != [] && top == p.path[|p.path| - 1] && attrs != []
    requires DistinctAttrs(top.attrs + MeantAttrs(attrs)) && forall i | 0 <= i < |attrs| :: LegalAttr(attrs[i])
    requires Ahead(r, f) && !f.More? && p.rest == AttrsBytes(attrs, r)
    ensures var w := WalkAttrs(ScopesOf(p), MeantAttrs(attrs));
            && Ends(p, w)
            && (w.Passed? ==>
                  && Reaches(p, q, Behind(f, r), if f.Bracket? then ContentMode else AttributeMode, w.scopes,
                             p.path[|p.path| - 1 := top.(attrs := top.attrs + MeantAttrs(attrs))], p.doc)
                  && q.lastElem == p.lastElem)
    decreases |attrs|
  {
    hide GetNextNode, ParseLoop, AttrBytes, Ahead, LegalAttr, DistinctAttrs, HasAttr, DeclareTop, ResolveNeed, Meant;
    AttrsSplit(top, attrs);
    var b := Attr(attrs[0].name, Meant(attrs[0].value));
    var next := AttrsBytes(attrs[1..], r);
    var g := f;
    if |attrs| > 1 {
      g := FollowAttr(attrs[1], AttrsBytes(attrs[1..][1..], r));
      AttrAhead(attrs[1], AttrsBytes(attrs[1..][1..], r));
    }
    q := AttrRead(p, attrs[0], next, g, top);
    assert MeantAttrs(attrs)[0] == b && MeantAttrs(attrs)[1..] == MeantAttrs(attrs[1..]);
    if ResolveNeed(p.need, DeclareTop(p.stack, b.name, b.value)).Resolved? {
      var q0 := q;
      if |attrs| > 1 {
        var top1 := top.(attrs := top.attrs + [b]);
        q := AttrsRead(q0, attrs[1..], r, f, top1);
        assert q0.path[|p.path| - 1 := top1.(attrs := top1.attrs + MeantAttrs(attrs[1..]))]
            == p.path[|p.path| - 1 := top.(attrs := top.attrs + MeantAttrs(attrs))];
      } else {
        assert MeantAttrs(attrs) == [b];
      }
    }
  }

  // ---- tags ----

  /** A start tag up to its first attribute or its end opens a new current node. */
  lemma {:induction false} OpenRead(p: State, name: Bytes, r: Bytes, f: Follow) returns (q: State)
    requires !p.mode.ContentMode? && (p.hasTop ==> p.stack != []) && ValidName(name) && Ahead(r, f)
    requires p.rest == [0x3C] + (name + r) && (f.More? ==> f.gap != [])
    ensures ParseLoop(p) == ParseLoop(q) && q.hasTop && q.lastElem == name && q.rest == Behind(f, r)
    ensures q.mode == if f.Bracket? then ContentMode else if f.Slash? then ElementMode else AttributeMode
    ensures ScopesOf(q) == Enter(ScopesOf(p), name, f.More?)
    ensures q.path == p.path + [Frame(name, [], [])] && q.doc == p.doc
  {
    hide GetNextNode, ValidName, ParseLoop, Enter, Ahead;
    StartRound(p, name, r, f);
    q := OneRound(p);
  }

  /** A start tag with all its attributes. */
  lemma {:induction false} StartRead(p: State, name: Bytes, attrs: seq<Written>, r: Bytes, f: Follow) returns (q: State)
    requires !p.mode.ContentMode? && (p.hasTop ==> p.stack != [])
    requires ValidName(name) && CorrectAttrs(attrs) && Ahead(r, f) && !f.More?
    requires p.rest == [0x3C] + (name + AttrsBytes(attrs, r))
    ensures var w := WalkStart(ScopesOf(p), name, MeantAttrs(attrs));
            && Ends(p, w)
            && (w.Passed? ==>
                  && Reaches(p, q, Behind(f, r), q.mode, w.scopes, p.path + [Frame(name, MeantAttrs(attrs), [])], p.doc)
                  && (q.mode.ContentMode? <==> f.Bracket?) && q.lastElem == name)
  {
    hide ValidName, AttrBytes, ParseLoop, Enter, Ahead, LegalAttr, WalkAttrs, Behind;
    if attrs == [] {
      q := OpenRead(p, name, r, f);
      NoAttrsWalk(ScopesOf(p), name);
    } else {
      var t := AttrsBytes(attrs[1..], r);
      AttrAhead(attrs[0], t);
      var q0 := OpenRead(p, name, AttrsBytes(attrs, r), FollowAttr(attrs[0], t));
      var top := Frame(name, [], []);
      assert top.attrs + MeantAttrs(attrs) == MeantAttrs(attrs);
      BehindMore(AttrsBytes(attrs, r), FollowAttr(attrs[0], t));
      q := AttrsRead(q0, attrs, r, f, top);
      assert q0.path[|q0.path| - 1 := Frame(name, MeantAttrs(attrs), [])] == p.path + [Frame(name, MeantAttrs(attrs), [])];
    }
  }

  lemma {:induction false} BehindMore(r: Bytes, f: Follow)
    requires f.More?
    ensures Behind(f, r) == r
  {
  }

  lemma {:induction false} NoAttrsWalk(s: Scopes, name: Bytes)
    ensures MeantAttrs([]) == [] && WalkStart(s, name, []) == Passed(Enter(s, name, false))
  {
  }

  /** The children of the current node after a list of nodes has been appended to it. */
  function WithChildren(path: seq<Frame>, nodes: seq<Node>): seq<Frame>
    requires path != []
  {
    var k := |path| - 1;
    path[k := path[k].(children := path[k].children + nodes)]
  }

  /** From p the parse goes on in content, with one more child of the current node or of the document. */
  ghost predicate Appends(p: State, q: State, rest: Bytes, s: Scopes, node: Node) {
    if p.path == [] then Reaches(p, q, rest, ContentMode, s, [], p.doc + [node])
    else Reaches(p, q, rest, ContentMode, s, WithChildren(p.path, [node]), p.doc)
  }

  /** A round that delivers the end of the current element. */
  lemma {:induction false} CloseRound(p: State, q: State, name: Bytes, r: Bytes) returns (q': State)
    requires ParseLoop(p) == ParseLoop(q) && q.hasTop
    requires q.stack != [] && q.stack[0].element == name
    requires q.path != [] && q.path[|q.path| - 1].name == name && q.path[..|q.path| - 1] == p.path && q.doc == p.doc
    requires Delivers(GetNextNode(q), EndElement(name), q, r, q.mode, q.need, q.lastElem)
    ensures Appends(p, q', r, Scopes(q.stack[1..], q.need), Closed(q.path[|q.path| - 1]))
  {
    hide GetNextNode, ParseLoop;
    q' := OneRound(q);
  }

  /** A tag with everything in it is read as the last child of the current node, or as the top-level element. */
  lemma {:induction false} TagRead(p: State, part: Part, t: Bytes) returns (q: State)
    requires !p.mode.ContentMode? && (p.hasTop ==> p.stack != [])
    requires part.Tag? && CorrectPart(part) && p.rest == PartBytes(part, t)
    ensures var w := WalkNodes(ScopesOf(p), Nodes([part]));
            && Ends(p, w)
            && |Nodes([part])| == 1 && (w.Passed? ==> Appends(p, q, t, w.scopes, Nodes([part])[0]))
    decreases part, 0
  {
    hide GetNextNode, ValidName, ParseLoop, AttrsBytes, WalkStart, CorrectAttrs, Gap;
    var name, attrs, gap, body := part.name, part.attrs, part.gap, part.body;
    TagNode(part);
    var node := Nodes([part])[0];
    OneWalk(ScopesOf(p), node);
    var w := WalkStart(ScopesOf(p), name, MeantAttrs(attrs));
    match body
    case Empty =>
      q := StartRead(p, name, attrs, gap + ([0x2F, 0x3E] + t), Slash(gap, t));
      if w.Passed? {
        NameFirstByte(name);
        EmptyRound(q, name, t);
        q := CloseRound(p, q, name, t);
      }
    case Filled(content, endGap) =>
      var behind := [0x3C, 0x2F] + (name + (endGap + ([0x3E] + t)));
      var inner := PartsBytes(content, behind);
      q := StartRead(p, name, attrs, gap + ([0x3E] + inner), Bracket(gap, inner));
      if w.Passed? {
        var q1 := q;
        assert [] + inner == inner;
        var q2, w2 := PartsRead(q1, [], content, behind);
        q := q2;
        if WalkNodes(w.scopes, Nodes(content)).Passed? {
          q := EndRead(p, q2, w2, node, endGap, t);
        }
      }
  }

  /** The node of a tag. */
  lemma {:induction false} TagNode(part: Part)
    requires part.Tag?
    ensures Nodes([part])
         == [Element(part.name, MeantAttrs(part.attrs), if part.body.Empty? then [] else Nodes(part.body.content))]
  {
    assert [part][1..] == [];
  }

  lemma {:induction false} OneWalk(s: Scopes, node: Node)
    requires node.Element?
    ensures WalkNodes(s, [node]) == WalkElement(s, node)
  {
    hide WalkElement;
    assert [node][1..] == [];
  }

  /** The end tag of an element. */
  lemma {:induction false} EndRead(p: State, q2: State, w2: Bytes, node: Node, gap: Bytes, t: Bytes) returns (q: State)
    requires node.Element? && ValidName(node.name) && AllWhite(w2) && Gap(gap)
    requires q2.stack != [] && q2.stack[0].element == node.name
    requires Reaches(p, q2, w2 + ([0x3C, 0x2F] + (node.name + (gap + ([0x3E] + t)))), ContentMode, ScopesOf(q2),
                     WithChildren(p.path + [Frame(node.name, node.attrs, [])], node.children), p.doc)
    ensures Appends(p, q, t, Scopes(q2.stack[1..], q2.need), node)
  {
    hide ParseLoop, ValidName, GetNextNode, Gap;
    assert q2.path == p.path + [Frame(node.name, node.attrs, node.children)] by {
      assert [] + node.children == node.children;
    }
    var behind := [0x3C, 0x2F] + (node.name + (gap + ([0x3E] + t)));
    SwitchRound(q2, w2, behind);
    var q3 := SkippingRound(q2, behind, ElementMode);
    EndTag(q3, node.name, gap, t);
    assert q3.path[..|q3.path| - 1] == p.path;
    q := CloseRound(p, q3, node.name, t);
  }

  // ---- content ----

  /** What stands in front of a part that is no text begins with `<`. */
  lemma {:induction false} PartsStart(parts: seq<Part>, t: Bytes)
    requires CorrectParts(parts) && t != [] && t[0] == 0x3C && (parts == [] || !IsText(parts[0]))
    ensures PartsBytes(parts, t) != [] && PartsBytes(parts, t)[0] == 0x3C
  {
  }

  lemma {:induction false} NoChildren(path: seq<Frame>)
    requires path != []
    ensures WithChildren(path, []) == path
  {
    assert path[|path| - 1].children + [] == path[|path| - 1].children;
  }

  lemma {:induction false} Appended(path: seq<Frame>, node: Node, following: seq<Node>)
    requires path != []
    ensures WithChildren(WithChildren(path, [node]), following) == WithChildren(path, [node] + following)
  {
    var c := path[|path| - 1].children;
    assert c + [node] + following == c + ([node] + following);
  }

  lemma {:induction false} WalkedOn(s: Scopes, node: Node, following: seq<Node>)
    ensures WalkNodes(s, [node] + following) == match WalkNodes(s, [node])
                                                case Passed(u) => WalkNodes(u, following)
                                                case w => w
  {
    hide WalkElement;
    assert ([node] + following)[1..] == following && [node][1..] == [];
  }

  /** Text, or a CDATA section, is appended to the current element. */
  lemma {:induction false} LeafRead(p: State, section: bool, v: Bytes, r: Bytes) returns (q: State)
    requires p.mode.ContentMode? && p.hasTop && p.path != []
    requires Delivers(GetNextNode(p), if section then CDataNode(v) else TextNode(v), p, r, ContentMode, p.need, p.lastElem)
    ensures Reaches(p, q, r, ContentMode, ScopesOf(p), WithChildren(p.path, [if section then CData(v) else Text(v)]), p.doc)
  {
    hide GetNextNode, ParseLoop;
    q := OneRound(p);
  }

  /** Content is read as children of the current node, up to the end tag behind it. */
  lemma {:induction false} PartsRead(p: State, w: Bytes, parts: seq<Part>, t: Bytes) returns (q: State, w': Bytes)
    requires p.mode.ContentMode? && p.hasTop && p.stack != [] && p.path != []
    requires AllWhite(w) && CorrectParts(parts) && (parts != [] && IsText(parts[0]) ==> w == [])
    requires |t| > 1 && t[0] == 0x3C && t[1] == 0x2F
    requires p.rest == w + PartsBytes(parts, t)
    ensures AllWhite(w')
    ensures var s := WalkNodes(ScopesOf(p), Nodes(parts));
            Ends(p, s) && (s.Passed? ==> Reaches(p, q, w' + t, ContentMode, s.scopes, WithChildren(p.path, Nodes(parts)), p.doc))
    decreases parts, 1
  {
    hide GetNextNode, ParseLoop, PartBytes, PartsBytes, CorrectPart, WalkNodes;
    if parts == [] {
      q, w' := p, w;
      NoChildren(p.path);
      NothingRead(ScopesOf(p), t);
    } else {
      var rest := PartsBytes(parts[1..], t);
      PartFirst(parts, t);
      if parts[0].Tag? {
        q, w' := ElementFirst(p, w, parts, t);
      } else if parts[0].Chars? || parts[0].Section? {
        q, w' := LeafFirst(p, w, parts, t);
      } else {
        var q0, w0 := SkippedRead(p, w, parts[0], rest);
        q, w' := PartsRead(q0, w0, parts[1..], t);
      }
    }
  }

  lemma {:induction false} NothingRead(s: Scopes, t: Bytes)
    ensures PartsBytes([], t) == t && WalkNodes(s, []) == Passed(s) && Nodes([]) == []
  {
  }

  lemma {:induction false} PartFirst(parts: seq<Part>, t: Bytes)
    requires parts != [] && CorrectParts(parts)
    ensures PartsBytes(parts, t) == PartBytes(parts[0], PartsBytes(parts[1..], t))
    ensures CorrectPart(parts[0]) && CorrectParts(parts[1..])
    ensures parts[0].Chars? || parts[0].Section? || parts[0].Tag? ==>
              |Nodes([parts[0]])| == 1 && Nodes(parts) == [Nodes([parts[0]])[0]] + Nodes(parts[1..])
    ensures !(parts[0].Chars? || parts[0].Section? || parts[0].Tag?) ==> Nodes(parts) == Nodes(parts[1..])
  {
    hide PartBytes, CorrectPart;
    assert [parts[0]][1..] == [];
  }

  /** A comment, an instruction or a gap; a gap is kept for what comes next. */
  lemma {:induction false} SkippedRead(p: State, w: Bytes, part: Part, rest: Bytes) returns (q: State, w': Bytes)
    requires p.mode.ContentMode? && AllWhite(w) && CorrectPart(part)
    requires part.Comment? || part.Instruction? || (part.Blank? && w == [])
    requires p.rest == w + PartBytes(part, rest)
    ensures ParseLoop(p) == ParseLoop(q) && AllWhite(w') && (!part.Blank? ==> w' == [])
    ensures Moved(p, q, w' + rest, ContentMode, p.need, p.lastElem)
  {
    hide GetNextNode, ParseLoop;
    match part
    case Comment(c) =>
      CommentRound(p, w, c, rest);
      w' := [];
      assert [] + rest == rest;
      q := SkippingRound(p, rest, ContentMode);
    case Instruction(c) =>
      InstructionRound(p, w, c, rest);
      w' := [];
      assert [] + rest == rest;
      q := SkippingRound(p, rest, ContentMode);
    case Blank(b) =>
      GapWhite(b);
      assert [] + (b + rest) == b + rest;
      q, w' := p, b;
  }

  /** The case of PartsRead in which text or a section comes first. */
  lemma {:induction false} LeafFirst(p: State, w: Bytes, parts: seq<Part>, t: Bytes) returns (q: State, w': Bytes)
    requires p.mode.ContentMode? && p.hasTop && p.stack != [] && p.path != []
    requires AllWhite(w) && parts != [] && CorrectParts(parts) && (IsText(parts[0]) ==> w == [])
    requires parts[0].Chars? || parts[0].Section?
    requires |t| > 1 && t[0] == 0x3C && t[1] == 0x2F
    requires p.rest == w + PartsBytes(parts, t)
    ensures AllWhite(w')
    ensures var s := WalkNodes(ScopesOf(p), Nodes(parts));
            Ends(p, s) && (s.Passed? ==> Reaches(p, q, w' + t, ContentMode, s.scopes, WithChildren(p.path, Nodes(parts)), p.doc))
    decreases parts, 0
  {
    hide GetNextNode, ParseLoop, PartsBytes, CorrectChars, ValidCData, WalkNodes, RawText, Meant;
    var rest, node := PartsBytes(parts[1..], t), Nodes([parts[0]])[0];
    PartFirst(parts, t);
    var q0;
    match parts[0] {
      case Chars(xs) =>
        PartsStart(parts[1..], t);
        assert [] + (RawText(xs) + rest) == RawText(xs) + rest;
        TextRound(p, xs, rest);
        q0 := LeafRead(p, false, Meant(xs), rest);
      case Section(v) =>
        CDataRound(p, w, v, rest);
        q0 := LeafRead(p, true, v, rest);
    }
    assert [] + rest == rest;
    q, w' := PartsRead(q0, [], parts[1..], t);
    Appended(p.path, node, Nodes(parts[1..]));
    WalkedOn(ScopesOf(p), node, Nodes(parts[1..]));
    LeafWalk(ScopesOf(p), node);
  }

  lemma {:induction false} LeafWalk(s: Scopes, node: Node)
    requires !node.Element?
    ensures WalkNodes(s, [node]) == Passed(s)
  {
    assert [node][1..] == [];
  }

  /** The case of PartsRead in which a tag comes first. */
  lemma {:induction false} ElementFirst(p: State, w: Bytes, parts: seq<Part>, t: Bytes) returns (q: State, w': Bytes)
    requires p.mode.ContentMode? && p.hasTop && p.stack != [] && p.path != []
    requires AllWhite(w) && parts != [] && CorrectParts(parts) && parts[0].Tag?
    requires |t| > 1 && t[0] == 0x3C && t[1] == 0x2F
    requires p.rest == w + PartsBytes(parts, t)
    ensures AllWhite(w')
    ensures var s := WalkNodes(ScopesOf(p), Nodes(parts));
            Ends(p, s) && (s.Passed? ==> Reaches(p, q, w' + t, ContentMode, s.scopes, WithChildren(p.path, Nodes(parts)), p.doc))
    decreases parts, 0
  {
    hide GetNextNode, ParseLoop, PartsBytes, PartBytes, CorrectPart, WalkNodes;
    var rest, node := PartsBytes(parts[1..], t), Nodes([parts[0]])[0];
    PartFirst(parts, t);
    TagStart(parts[0], rest);
    SwitchRound(p, w, PartBytes(parts[0], rest));
    var p1 := SkippingRound(p, PartBytes(parts[0], rest), ElementMode);
    var q0 := TagRead(p1, parts[0], rest);
    TagNode(parts[0]);
    WalkedOn(ScopesOf(p), node, Nodes(parts[1..]));
    q, w' := q0, [];
    if WalkNodes(ScopesOf(p), [node]).Passed? {
      assert [] + rest == rest;
      q, w' := PartsRead(q0, [], parts[1..], t);
      Appended(p.path, node, Nodes(parts[1..]));
    }
  }

  lemma {:induction false} TagStart(part: Part, t: Bytes)
    requires part.Tag? && CorrectPart(part)
    ensures var r := PartBytes(part, t); |r| > 1 && r[0] == 0x3C && r[1] != 0x21 && r[1] != 0x3F
  {
    hide ValidName, AttrsBytes;
    NameFirstByte(part.name);
    assert PartBytes(part, t)[1] == part.name[0];
  }
}
