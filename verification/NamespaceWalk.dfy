/**
 * What the parser does with the namespaces of a whole tree, in document order: which documents it takes, and
 * how it refuses the others.
 */
module NamespaceWalk {
  import opened CStrings
  import opened XmlTree
  import opened Namespaces

  datatype Walked = Passed(scopes: Scopes) | Refusal | NullRead

  /** The attributes of the element on top of the stack. */
  function WalkAttrs(s: Scopes, attrs: seq<Attr>): (w: Walked)
    requires s.stack != []
    ensures w.Passed? ==>
              && w.scopes.stack != [] && w.scopes.stack[1..] == s.stack[1..]
              && w.scopes.stack[0].element == s.stack[0].element
    decreases |attrs|
  {
    if attrs == [] then Passed(s)
    else
      var stack := DeclareTop(s.stack, attrs[0].name, attrs[0].value);
      match ResolveNeed(s.need, stack)
      case Resolved(need) => WalkAttrs(Scopes(stack, need), attrs[1..])
      case Refused => Refusal
      case NullString => NullRead
  }

  /** The start tag of an element. */
  function WalkStart(s: Scopes, name: Bytes, attrs: seq<Attr>): (w: Walked)
    ensures w.Passed? ==> w.scopes.stack != [] && w.scopes.stack[1..] == s.stack && w.scopes.stack[0].element == name
  {
    WalkAttrs(Enter(s, name, attrs != []), attrs)
  }

  /** An element; behind its end tag the stack is as before. */
  function WalkElement(s: Scopes, node: Node): (w: Walked)
    requires node.Element?
    ensures w.Passed? ==> w.scopes.stack == s.stack
    decreases node, 0
  {
    match WalkStart(s, node.name, node.attrs)
    case Passed(t) =>
      (match WalkNodes(t, node.children)
       case Passed(u) => Passed(Scopes(s.stack, u.need))
       case w => w)
    case w => w
  }

  /** Siblings. */
  function WalkNodes(s: Scopes, nodes: seq<Node>): (w: Walked)
    ensures w.Passed? ==> w.scopes.stack == s.stack
    decreases nodes, 1
  {
    if nodes == [] then Passed(s)
    else if !nodes[0].Element? then WalkNodes(s, nodes[1..])
    else
      match WalkElement(s, nodes[0])
      case Passed(t) => WalkNodes(t, nodes[1..])
      case w => w
  }

  /** The parser takes the namespaces of the document. */
  predicate NamespacesPass(doc: seq<Node>) {
    WalkNodes(Scopes([], None), doc).Passed?
  }

  // ---- documents whose prefixes are declared ----

  /** The prefixes the attributes declare. */
  function DeclaredBy(attrs: seq<Attr>): set<Bytes> {
    if attrs == [] then {}
    else
      (if XMLNS + COLON <= attrs[0].name then {attrs[0].name[6..]} else {}) + DeclaredBy(attrs[1..])
  }

  /** Every prefix of an element name is in scope or declared by the element or an element around it. */
  predicate WellPrefixed(nodes: seq<Node>, scope: set<Bytes>) {
    nodes == [] ||
    (WellPrefixed(nodes[1..], scope) &&
     match nodes[0]
     case Element(name, attrs, children) =>
       var inner := scope + DeclaredBy(attrs);
       (PrefixOf(name).Some? ==> PrefixOf(name).value in inner) && WellPrefixed(children, inner)
     case _ => true)
  }

  predicate Known(stack: seq<StackItem>, scope: set<Bytes>) {
    forall prefix | prefix in scope :: PrefixDefined(stack, prefix).Some?
  }

  lemma DeclaredKeeps(decls: seq<Decl>, prefix: Bytes, nsURI: Bytes, other: Bytes)
    ensures DeclOf(decls, other) < |decls| || other == prefix ==>
              DeclOf(Declared(decls, prefix, nsURI), other) < |Declared(decls, prefix, nsURI)|
  {
    var r := Declared(decls, prefix, nsURI);
    var k, j := DeclOf(decls, prefix), DeclOf(decls, other);
    if j < |decls| {
      assert r[j].prefix == other;
    }
    assert r[k].prefix == prefix;
  }

  /** What was defined stays defined, and what is declared becomes defined. */
  lemma DeclareKnows(stack: seq<StackItem>, name: Bytes, value: Bytes, prefix: Bytes)
    requires stack != []
    requires PrefixDefined(stack, prefix).Some? || (XMLNS + COLON <= name && name[6..] == prefix)
    ensures PrefixDefined(DeclareTop(stack, name, value), prefix).Some?
  {
    var r := DeclareTop(stack, name, value);
    if XMLNS + COLON <= name {
      DeclaredKeeps(stack[0].decls, name[6..], value, prefix);
    }
    assert r[0].Prefix() == stack[0].Prefix() && r[1..] == stack[1..];
  }

  /** The attributes of an element that itself needs the namespace, or of one when none does. */
  lemma {:induction false} OwnAttrs(s: Scopes, attrs: seq<Attr>, prefix: Bytes)
    requires s.stack != [] && s.need in {None, Some(s.stack[0].element)}
    ensures var w := WalkAttrs(s, attrs);
            && w.Passed?
            && w.scopes.need in {None, Some(s.stack[0].element)}
            && (s.need == None ==> w.scopes.need == None)
            && (attrs != [] && s.stack[0].Prefix() == None ==> w.scopes.need == None)
            && (s.stack[0].Prefix() == Some(prefix) && prefix in DeclaredBy(attrs) ==> w.scopes.need == None)
            && (PrefixDefined(s.stack, prefix).Some? || prefix in DeclaredBy(attrs) ==>
                  PrefixDefined(w.scopes.stack, prefix).Some?)
    decreases |attrs|
  {
    if attrs != [] {
      var stack := DeclareTop(s.stack, attrs[0].name, attrs[0].value);
      if PrefixDefined(s.stack, prefix).Some? || (XMLNS + COLON <= attrs[0].name && attrs[0].name[6..] == prefix) {
        DeclareKnows(s.stack, attrs[0].name, attrs[0].value, prefix);
      }
      assert stack[0].Prefix() == s.stack[0].Prefix();
      OwnAttrs(Scopes(stack, ResolveNeed(s.need, stack).need), attrs[1..], prefix);
    }
  }

  /** Behind the start tag of an element whose prefix is declared, no element needs a namespace. */
  lemma StartPasses(s: Scopes, name: Bytes, attrs: seq<Attr>, scope: set<Bytes>)
    requires s.need == None && Known(s.stack, scope)
    requires PrefixOf(name).Some? ==> PrefixOf(name).value in scope + DeclaredBy(attrs)
    ensures var w := WalkStart(s, name, attrs);
            w.Passed? && w.scopes.need == None && Known(w.scopes.stack, scope + DeclaredBy(attrs))
  {
    var t := Enter(s, name, attrs != []);
    OwnAttrs(t, attrs, if PrefixOf(name).Some? then PrefixOf(name).value else []);
    forall prefix | prefix in scope + DeclaredBy(attrs)
      ensures PrefixDefined(WalkStart(s, name, attrs).scopes.stack, prefix).Some?
    {
      assert t.stack[1..] == s.stack;
      assert prefix in scope ==> PrefixDefined(t.stack, prefix).Some?;
      OwnAttrs(t, attrs, prefix);
    }
  }

  /** A document whose prefixes are declared passes, and leaves nothing behind. */
  lemma {:induction false} WellPrefixedPasses(s: Scopes, nodes: seq<Node>, scope: set<Bytes>)
    requires s.need == None && Known(s.stack, scope) && WellPrefixed(nodes, scope)
    ensures WalkNodes(s, nodes) == Passed(s)
    decreases nodes
  {
    if nodes != [] {
      WellPrefixedPasses(s, nodes[1..], scope);
      if nodes[0].Element? {
        var name, attrs, children := nodes[0].name, nodes[0].attrs, nodes[0].children;
        StartPasses(s, name, attrs, scope);
        WellPrefixedPasses(WalkStart(s, name, attrs).scopes, children, scope + DeclaredBy(attrs));
      }
    }
  }

  // ---- documents that do not pass ----

  const NAME_A_B: Bytes := [0x61, 0x3A, 0x62]  // a:b
  const NAME_C_D: Bytes := [0x63, 0x3A, 0x64]  // c:d
  const NAME_C: Bytes := [0x63]
  const NAME_X: Bytes := [0x78]

  /**
   * <r D><a:b><N x=""></N></a:b></r>: the prefix a is declared nowhere. With the declaration xmlns:c="" for D and
   * c:d for N the attribute x is refused; with xmlns="" for D and c for N the missing prefix of c is compared.
   */
  function Undeclared(decl: Bytes, inner: Bytes): seq<Node> {
    [Element(ROOT, [Attr(decl, [])], [Element(NAME_A_B, [], [Element(inner, [Attr(NAME_X, [])], [])])])]
  }

  const ROOT: Bytes := [0x72]

  lemma NoColon(s: Bytes)
    requires |s| == 1 && s[0] != 0x3A
    ensures Find(s, COLON) == None
  {
    assert COLON[0] == 0x3A;
    assert Find(s[1..], COLON) == None;
  }

  lemma SomePrefixes()
    ensures PrefixOf(ROOT) == None && PrefixOf(NAME_C) == None
    ensures PrefixOf(NAME_A_B) == Some([0x61]) && PrefixOf(NAME_C_D) == Some([0x63])
  {
    NoColon(ROOT);
    NoColon(NAME_C);
    assert COLON <= NAME_A_B[1..] && COLON <= NAME_C_D[1..];
    assert NAME_A_B[..1] == [0x61] && NAME_C_D[..1] == [0x63];
  }

  /** A start tag with one attribute. */
  lemma OneAttr(s: Scopes, name: Bytes, a: Attr)
    ensures var t := Enter(s, name, true);
            var stack := [Declare(t.stack[0], a.name, a.value)] + s.stack;
            WalkStart(s, name, [a]) == match ResolveNeed(t.need, stack)
                                       case Resolved(need) => Passed(Scopes(stack, need))
                                       case Refused => Refusal
                                       case NullString => NullRead
  {
    hide Declare, ResolveNeed;
    var t := Enter(s, name, true);
    var stack := [Declare(t.stack[0], a.name, a.value)] + s.stack;
    assert t.stack[1..] == s.stack && DeclareTop(t.stack, a.name, a.value) == stack;
    assert WalkStart(s, name, [a]) == WalkAttrs(t, [a]);
    if ResolveNeed(t.need, stack).Resolved? {
      NothingMore(Scopes(stack, ResolveNeed(t.need, stack).need), [a]);
    }
  }

  lemma NothingMore(s: Scopes, attrs: seq<Attr>)
    requires s.stack != [] && |attrs| == 1
    ensures WalkAttrs(s, attrs[1..]) == Passed(s)
  {
  }

  lemma NoAttrs(s: Scopes, name: Bytes)
    ensures WalkStart(s, name, []) == Passed(Enter(s, name, false))
  {
  }

  /** The element around and the element inside it. */
  lemma Nested(s0: Scopes, s1: Scopes, outer: Node, inner: Node, w: Walked)
    requires outer.Element? && outer.children == [inner] && inner.Element? && !w.Passed?
    requires WalkStart(s0, outer.name, outer.attrs) == Passed(s1) && WalkElement(s1, inner) == w
    ensures WalkElement(s0, outer) == w
  {
    assert WalkNodes(s1, [inner]) == w;
    assert WalkElement(s0, outer) == match WalkNodes(s1, outer.children)
                                     case Passed(u) => Passed(Scopes(s0.stack, u.need))
                                     case v => v;
  }

  lemma Stops(decl: Bytes, inner: Bytes, top: StackItem, w: Walked)
    requires top.element == ROOT && top.namespaceUri in {None, Some([])} && PrefixDefined([top], [0x61]) == None
    requires !w.Passed? && WalkStart(Scopes([], None), ROOT, [Attr(decl, [])]) == Passed(Scopes([top], None))
    requires WalkStart(Scopes([StackItem(NAME_A_B, None, []), top], Some(NAME_A_B)), inner, [Attr(NAME_X, [])]) == w
    ensures WalkNodes(Scopes([], None), Undeclared(decl, inner)) == w
  {
    hide PrefixOf, WalkStart, PrefixDefined;
    SomePrefixes();
    var s0, s1 := Scopes([top], None), Scopes([StackItem(NAME_A_B, None, []), top], Some(NAME_A_B));
    var x := Element(inner, [Attr(NAME_X, [])], []);
    var y := Element(NAME_A_B, [], [x]);
    NoAttrs(s0, NAME_A_B);
    assert [StackItem(NAME_A_B, None, [])] + [top] == s1.stack;
    assert Enter(s0, NAME_A_B, false) == s1;
    Nested(s0, s1, y, x, w);
    Nested(Scopes([], None), s0, Element(ROOT, [Attr(decl, [])], [y]), y, w);
  }

  lemma UndeclaredStops()
    ensures WalkNodes(Scopes([], None), Undeclared(XMLNS + COLON + NAME_C, NAME_C_D)) == Refusal
    ensures WalkNodes(Scopes([], None), Undeclared(XMLNS, NAME_C)) == NullRead
  {
    UndeclaredRefused();
    UndeclaredNull();
  }

  lemma UndeclaredRefused()
    ensures WalkNodes(Scopes([], None), Undeclared(XMLNS + COLON + NAME_C, NAME_C_D)) == Refusal
  {
    hide PrefixOf, WalkStart, WalkNodes;
    SomePrefixes();
    var decl := XMLNS + COLON + NAME_C;
    assert decl[6..] == NAME_C && decl != XMLNS;
    var top := StackItem(ROOT, None, [Decl(NAME_C, [])]);
    OneAttr(Scopes([], None), ROOT, Attr(decl, []));
    assert Declare(StackItem(ROOT, None, []), decl, []) == top;
    assert [top] + [] == [top];
    var s1 := Scopes([StackItem(NAME_A_B, None, []), top], Some(NAME_A_B));
    OneAttr(s1, NAME_C_D, Attr(NAME_X, []));
    assert s1.stack[1..] == [top];
    assert PrefixDefined(s1.stack, NAME_C) == Some(Some([]));
    Stops(decl, NAME_C_D, top, Refusal);
  }

  lemma UndeclaredNull()
    ensures WalkNodes(Scopes([], None), Undeclared(XMLNS, NAME_C)) == NullRead
  {
    hide PrefixOf, WalkStart, WalkNodes;
    SomePrefixes();
    var top := StackItem(ROOT, Some([]), []);
    OneAttr(Scopes([], None), ROOT, Attr(XMLNS, []));
    assert [top] + [] == [top];
    var s1 := Scopes([StackItem(NAME_A_B, None, []), top], Some(NAME_A_B));
    OneAttr(s1, NAME_C, Attr(NAME_X, []));
    assert s1.stack[1..] == [top];
    assert DefaultNamespace(s1.stack) == Some([]);
    Stops(XMLNS, NAME_C, top, NullRead);
  }
}
