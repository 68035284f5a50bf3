/**
 * The child lists of the document tree (src/ixml/node.c:480-849): nodes with parent, first-child and
 * sibling links, changed in place.
 */
module Dom {
  import opened CStrings
  import opened Sequences

  datatype NodeType = ElementNode | AttributeNode | TextNode | CDataSectionNode | DocumentNode

  datatype Code = Success | InvalidParameter | HierarchyRequestErr | WrongDocumentErr | NotFoundErr
                | InUseAttributeErr

  /** IXML_Node */
  class Node {
    var nodeName: Bytes
    var nodeValue: Bytes
    var nodeType: NodeType
    var parentNode: Node?
    var firstChild: Node?
    var prevSibling: Node?
    var nextSibling: Node?
    var firstAttr: Node?
    var ownerDocument: Node?
    var ownerElement: Node?  // of IXML_Attr

    constructor (nodeType: NodeType, nodeName: Bytes, nodeValue: Bytes, ownerDocument: Node?)
      ensures this.nodeType == nodeType && this.nodeName == nodeName && this.nodeValue == nodeValue
      ensures this.ownerDocument == ownerDocument && ownerElement == null
      ensures parentNode == null && firstChild == null && prevSibling == null && nextSibling == null
      ensures firstAttr == null
    {
      this.nodeType, this.nodeName, this.nodeValue := nodeType, nodeName, nodeValue;
      this.ownerDocument, ownerElement, firstAttr := ownerDocument, null, null;
      parentNode, firstChild, prevSibling, nextSibling := null, null, null, null;
    }
  }

  /** c[i], and NULL before and behind the list */
  function NodeAt(c: seq<Node>, i: int): Node? {
    if 0 <= i < |c| then c[i] else null
  }

  /** The links of the i-th child. */
  ghost predicate Linked(n: Node, c: seq<Node>, i: nat)
    requires i < |c|
    reads {c[i]}`parentNode, {c[i]}`prevSibling, {c[i]}`nextSibling
  {
    c[i].parentNode == n && c[i].prevSibling == NodeAt(c, i - 1) && c[i].nextSibling == NodeAt(c, i + 1)
  }

  /** The links of n and of its children spell the list c. */
  ghost predicate ChildLinks(n: Node, c: seq<Node>)
    reads n`firstChild
    reads (set x | x in c)`parentNode, (set x | x in c)`prevSibling, (set x | x in c)`nextSibling
  {
    n.firstChild == NodeAt(c, 0) && forall i | 0 <= i < |c| :: Linked(n, c, i)
  }

  /** A node without a parent has no siblings; a node with a parent is in its child list. */
  ghost predicate Upward(x: Node, t: Shape)
    reads x`parentNode, x`prevSibling, x`nextSibling
  {
    if x.parentNode == null then x.prevSibling == null && x.nextSibling == null
    else x.parentNode in t.kids && x in t.kids[x.parentNode]
  }

  /**
   * The abstract forest: the child sequence of every node. The heights decrease from parent to child,
   * which is what makes the forest acyclic.
   */
  datatype Shape = Shape(kids: map<Node, seq<Node>>, height: map<Node, nat>) {
    ghost function Nodes(): set<Node> {
      kids.Keys
    }

    ghost predicate Ranked() {
      && height.Keys == kids.Keys
      && (forall n | n in kids :: NoDup(kids[n]))
      && (forall n, i {:trigger kids[n][i]} | n in kids && 0 <= i < |kids[n]| ::
            kids[n][i] in kids && height[kids[n][i]] < height[n])
    }

    /** The links in the heap are those of the forest. */
    ghost predicate Valid()
      reads Nodes()`firstChild, Nodes()`parentNode, Nodes()`prevSibling, Nodes()`nextSibling
    {
      && Ranked()
      && (forall n | n in kids :: ChildLinks(n, kids[n]))
      && (forall n | n in kids :: Upward(n, this))
    }

    /** The same but for the links of x, which is in no child list. */
    ghost predicate ValidBut(x: Node)
      reads Nodes()`firstChild, Nodes()`parentNode, Nodes()`prevSibling, Nodes()`nextSibling
    {
      && Ranked()
      && (forall n | n in kids :: x !in kids[n] && ChildLinks(n, kids[n]))
      && (forall n | n in kids && n != x :: Upward(n, this))
    }

    /** x is a or a descendant of a. */
    ghost predicate InSubtree(a: Node, x: Node)
      requires Ranked() && a in kids
      decreases height[a]
    {
      x == a || exists i :: 0 <= i < |kids[a]| && InSubtree(kids[a][i], x)
    }

    /** a is a proper ancestor of x. */
    ghost predicate IsAbove(a: Node, x: Node)
      requires Ranked() && a in kids
    {
      a != x && InSubtree(a, x)
    }
  }

  /** A new node without links joins the forest. */
  lemma NewNode(t: Shape, x: Node)
    requires t.Valid() && x !in t.kids && x.firstChild == null
    requires x.parentNode == null && x.prevSibling == null && x.nextSibling == null
    ensures Shape(t.kids[x := []], t.height[x := 0]).Valid()
  {
    hide ChildLinks, NoDup, Shape.Ranked;
    var u := Shape(t.kids[x := []], t.height[x := 0]);
    EmptyList(x);
    NewRanked(t, x);
    forall n | n in u.kids
      ensures ChildLinks(n, u.kids[n]) && Upward(n, u)
    {
      if n != x {
        assert ChildLinks(n, t.kids[n]) && Upward(n, t);
      }
    }
  }

  lemma NewRanked(t: Shape, x: Node)
    requires t.Ranked() && x !in t.kids
    ensures Shape(t.kids[x := []], t.height[x := 0]).Ranked()
  {
    hide NoDup;
    var u := Shape(t.kids[x := []], t.height[x := 0]);
    forall n | n in u.kids
      ensures NoDup(u.kids[n]) && forall i | 0 <= i < |u.kids[n]| :: u.kids[n][i] in u.kids && u.height[u.kids[n][i]] < u.height[n]
    {
      if n == x {
        NothingTwice();
      } else {
        assert u.kids[n] == t.kids[n];
      }
    }
  }

  lemma NothingTwice()
    ensures NoDup<Node>([])
  {
  }

  lemma EmptyList(x: Node)
    requires x.firstChild == null
    ensures ChildLinks(x, [])
  {
  }

  // ---- reading the tree ----

  /** p is in the subtree of one of the nodes. */
  ghost predicate AnyAbove(t: Shape, sibs: seq<Node>, p: Node)
    requires t.Ranked() && forall i | 0 <= i < |sibs| :: sibs[i] in t.kids
  {
    exists i :: 0 <= i < |sibs| && t.InSubtree(sibs[i], p)
  }

  /** The nodes are linked one behind the other, up to the last sibling. */
  ghost predicate Behind(sibs: seq<Node>)
    reads (set x | x in sibs)`nextSibling
  {
    forall i {:trigger sibs[i].nextSibling} | 0 <= i < |sibs| :: sibs[i].nextSibling == NodeAt(sibs, i + 1)
  }

  lemma AnyAboveSplit(t: Shape, sibs: seq<Node>, p: Node)
    requires t.Ranked() && sibs != [] && forall i | 0 <= i < |sibs| :: sibs[i] in t.kids
    ensures AnyAbove(t, sibs, p) <==>
              sibs[0] == p || AnyAbove(t, t.kids[sibs[0]], p) || AnyAbove(t, sibs[1..], p)
  {
    var a := sibs[0];
    assert t.InSubtree(a, p) <==> a == p || AnyAbove(t, t.kids[a], p);
    if AnyAbove(t, sibs[1..], p) {
      var i :| 0 <= i < |sibs| - 1 && t.InSubtree(sibs[1..][i], p);
      assert t.InSubtree(sibs[i + 1], p);
    }
    if AnyAbove(t, sibs, p) && !t.InSubtree(a, p) {
      var i :| 0 <= i < |sibs| && t.InSubtree(sibs[i], p);
      assert t.InSubtree(sibs[1..][i - 1], p);
    }
  }

  lemma BehindRest(sibs: seq<Node>)
    requires sibs != [] && Behind(sibs)
    ensures Behind(sibs[1..]) && sibs[0].nextSibling == NodeAt(sibs[1..], 0)
  {
  }

  lemma BehindFrom(c: seq<Node>, i: nat)
    requires Behind(c) && i < |c|
    ensures Behind(c[i..])
  {
    forall j | 0 <= j < |c[i..]|
      ensures c[i..][j].nextSibling == NodeAt(c[i..], j + 1)
    {
      assert c[i..][j] == c[i + j];
    }
  }

  lemma BehindKids(t: Shape, n: Node)
    requires t.Valid() && n in t.kids
    ensures Behind(t.kids[n]) && n.firstChild == NodeAt(t.kids[n], 0)
  {
    assert ChildLinks(n, t.kids[n]);
    forall i | 0 <= i < |t.kids[n]|
      ensures t.kids[n][i].nextSibling == NodeAt(t.kids[n], i + 1)
    {
      assert Linked(n, t.kids[n], i);
    }
  }

  lemma ParentKnown(t: Shape, x: Node)
    requires t.Valid() && x in t.kids && x.parentNode != null
    ensures x.parentNode in t.kids && x in t.kids[x.parentNode]
  {
    assert Upward(x, t);
  }

  /**
   * ixmlNode_isAncestor. The recursion also follows the siblings behind its argument, so what it
   * decides is whether the parent of toFind lies in the subtree of one of them.
   */
  function IsAncestor(ancestorNode: Node?, toFind: Node?, ghost t: Shape, ghost sibs: seq<Node>, ghost bound: nat): (found: bool)
    requires t.Valid() && (toFind != null ==> toFind in t.kids)
    requires ancestorNode == NodeAt(sibs, 0)
    requires forall i | 0 <= i < |sibs| :: sibs[i] in t.kids && t.height[sibs[i]] < bound
    requires Behind(sibs)
    reads t.Nodes()
    ensures found <==> toFind != null && toFind.parentNode != null && AnyAbove(t, sibs, toFind.parentNode)
    decreases bound, |sibs|
  {
    hide ChildLinks, Behind;
    if ancestorNode == null || toFind == null then
      false
    else
      BehindRest(sibs);
      BehindKids(t, ancestorNode);
      if toFind.parentNode == ancestorNode then
        AnyAboveSplit(t, sibs, toFind.parentNode);
        true
      else
        assert toFind.parentNode != null ==> toFind.parentNode in t.kids by { if toFind.parentNode != null { ParentKnown(t, toFind); } }
        assert toFind.parentNode != null ==>
            (AnyAbove(t, sibs, toFind.parentNode) <==>
             AnyAbove(t, t.kids[ancestorNode], toFind.parentNode) || AnyAbove(t, sibs[1..], toFind.parentNode))
          by { if toFind.parentNode != null { AnyAboveSplit(t, sibs, toFind.parentNode); } }
        IsAncestor(ancestorNode.firstChild, toFind, t, t.kids[ancestorNode], t.height[ancestorNode])
        || IsAncestor(ancestorNode.nextSibling, toFind, t, sibs[1..], bound)
  }

  /** ixmlNode_isParent */
  predicate IsParent(nodeptr: Node, toFind: Node)
    reads toFind`parentNode
  {
    toFind.parentNode == nodeptr
  }

  /** The node types a child may have (section 1.1.1 of DOM Level 2 Core, as far as the types exist here). */
  predicate AllowedTypes(parent: NodeType, child: NodeType): (allowed: bool)
    ensures allowed <==> (parent, child) in {(DocumentNode, ElementNode), (ElementNode, ElementNode), (ElementNode, TextNode),
                                             (ElementNode, CDataSectionNode)}
  {
    match parent
    case AttributeNode => false
    case TextNode => false
    case CDataSectionNode => false
    case ElementNode => child != AttributeNode && child != DocumentNode
    case DocumentNode => child == ElementNode
  }

  /** ixmlNode_allowChildren */
  predicate AllowChildren(nodeptr: Node, newChild: Node)
    reads nodeptr`nodeType, newChild`nodeType
  {
    AllowedTypes(nodeptr.nodeType, newChild.nodeType)
  }

  // ---- child sequences ----

  /** The sequence c without x. */
  ghost function Without(c: seq<Node>, x: Node): seq<Node> {
    if c == [] then []
    else if c[0] == x then c[1..]
    else [c[0]] + Without(c[1..], x)
  }

  /** The part of c from x on. */
  ghost function From(c: seq<Node>, x: Node): seq<Node> {
    if c == [] || c[0] == x then c else From(c[1..], x)
  }

  /** The sequence c with x in front of r. */
  ghost function Before(c: seq<Node>, x: Node, r: Node): seq<Node> {
    if c == [] then []
    else if c[0] == r then [x] + c
    else [c[0]] + Before(c[1..], x, r)
  }

  /** The sequence c with x in place of r. */
  ghost function Instead(c: seq<Node>, x: Node, r: Node): seq<Node> {
    if c == [] then []
    else if c[0] == r then [x] + c[1..]
    else [c[0]] + Instead(c[1..], x, r)
  }

  lemma {:induction false} WithoutNothing(c: seq<Node>, x: Node)
    requires x !in c
    ensures Without(c, x) == c
  {
    if c != [] {
      WithoutNothing(c[1..], x);
    }
  }

  lemma {:induction false} WithoutAt(c: seq<Node>, i: nat)
    requires NoDup(c) && i < |c|
    ensures Without(c, c[i]) == c[..i] + c[i + 1..]
  {
    if i > 0 {
      WithoutAt(c[1..], i - 1);
      assert c[0] != c[i];
      assert c[..i] == [c[0]] + c[1..][..i - 1];
      assert c[i + 1..] == c[1..][i..];
    }
  }

  lemma {:induction false} FromAt(c: seq<Node>, i: nat)
    requires NoDup(c) && i < |c|
    ensures From(c, c[i]) == c[i..]
  {
    if i > 0 {
      FromAt(c[1..], i - 1);
      assert c[0] != c[i];
      assert c[i..] == c[1..][i - 1..];
    }
  }

  lemma {:induction false} BeforeAt(c: seq<Node>, x: Node, i: nat)
    requires NoDup(c) && i < |c|
    ensures Before(c, x, c[i]) == c[..i] + [x] + c[i..]
  {
    if i > 0 {
      BeforeAt(c[1..], x, i - 1);
      assert c[0] != c[i];
      assert c[..i] == [c[0]] + c[1..][..i - 1];
      assert c[i..] == c[1..][i - 1..];
    }
  }

  /** Inserting in front of a node and then removing that node replaces it. */
  lemma {:induction false} InsertRemove(c: seq<Node>, x: Node, r: Node)
    requires r in c && x != r
    ensures Without(Before(c, x, r), r) == Instead(c, x, r)
  {
    if c[0] == r {
      assert ([x] + c)[1..] == c;
    } else {
      InsertRemove(c[1..], x, r);
      assert ([c[0]] + Before(c[1..], x, r))[1..] == Before(c[1..], x, r);
    }
  }

  lemma {:induction false} WithoutKeepsOrder(c: seq<Node>, x: Node)
    requires NoDup(c)
    ensures NoDup(Without(c, x)) && x !in Without(c, x) && forall n | n in Without(c, x) :: n in c
  {
    if c != [] {
      assert c == [c[0]] + c[1..];
      if c[0] != x {
        WithoutKeepsOrder(c[1..], x);
        NoDupCons(c[0], Without(c[1..], x));
      }
    }
  }

  lemma {:induction false} InsteadOfNothing(c: seq<Node>, x: Node, r: Node)
    requires r !in c
    ensures Instead(c, x, r) == c
  {
    if c != [] {
      InsteadOfNothing(c[1..], x, r);
    }
  }

  /** The child list in the steps of a replacement. */
  lemma ReplacedKids(k: seq<Node>, x: Node, r: Node)
    requires NoDup(k) && r in k
    ensures var c := Without(k, x);
            x !in c && if x == r then Instead(c, x, r) == c else Without(Before(c, x, r), r) == Instead(c, x, r)
  {
    var c := Without(k, x);
    WithoutKeepsOrder(k, x);
    if x == r {
      InsteadOfNothing(c, x, r);
    } else {
      WithoutKeeps(k, x, r);
      InsertRemove(c, x, r);
    }
  }

  // ---- the forest under changes of one child list ----

  lemma KidsAreAttached(t: Shape, n: Node, x: Node)
    requires t.Valid() && n in t.kids && x in t.kids
    ensures x in t.kids[n] <==> x.parentNode == n
  {
    assert ChildLinks(n, t.kids[n]);
    assert Upward(x, t);
    if x in t.kids[n] {
      var i :| 0 <= i < |t.kids[n]| && t.kids[n][i] == x;
      assert Linked(n, t.kids[n], i);
    }
  }

  /** A node in the subtree of a other than a itself has a parent there. */
  lemma {:induction false} SubtreeParent(t: Shape, a: Node, x: Node)
    requires t.Ranked() && a in t.kids && t.InSubtree(a, x) && x != a
    ensures exists p :: p in t.kids && t.InSubtree(a, p) && x in t.kids[p]
    decreases t.height[a]
  {
    var i :| 0 <= i < |t.kids[a]| && t.InSubtree(t.kids[a][i], x);
    var c := t.kids[a][i];
    if c == x {
      assert t.InSubtree(a, a) && x in t.kids[a];
    } else {
      SubtreeParent(t, c, x);
      var p :| p in t.kids && t.InSubtree(c, p) && x in t.kids[p];
      assert t.InSubtree(a, p);
    }
  }

  /** Subtrees are closed under children. */
  lemma {:induction false} SubtreeChild(t: Shape, a: Node, p: Node, i: nat)
    requires t.Ranked() && a in t.kids && t.InSubtree(a, p) && p in t.kids && i < |t.kids[p]|
    ensures t.InSubtree(a, t.kids[p][i])
    decreases t.height[a]
  {
    var x := t.kids[p][i];
    if p == a {
      assert t.InSubtree(x, x);
    } else {
      var k :| 0 <= k < |t.kids[a]| && t.InSubtree(t.kids[a][k], p);
      SubtreeChild(t, t.kids[a][k], p, i);
      assert t.InSubtree(t.kids[a][k], x);
    }
  }

  /** Nothing below a is as high as a. */
  lemma {:induction false} SubtreeHeight(t: Shape, a: Node, x: Node)
    requires t.Ranked() && a in t.kids && t.InSubtree(a, x)
    ensures x in t.kids && t.height[x] <= t.height[a] && (x != a ==> t.height[x] < t.height[a])
    decreases t.height[a]
  {
    if x != a {
      var i :| 0 <= i < |t.kids[a]| && t.InSubtree(t.kids[a][i], x);
      SubtreeHeight(t, t.kids[a][i], x);
    }
  }

  /** The forest is acyclic: no two different nodes are below each other. */
  lemma Acyclic(t: Shape, a: Node, b: Node)
    requires t.Ranked() && a in t.kids && b in t.kids
    ensures !(t.IsAbove(a, b) && t.IsAbove(b, a))
  {
    if t.IsAbove(a, b) && t.IsAbove(b, a) {
      SubtreeHeight(t, a, b);
      SubtreeHeight(t, b, a);
    }
  }

  /** What isAncestor finds for a node without following siblings. */
  lemma AboveByParent(t: Shape, a: Node, x: Node)
    requires t.Valid() && a in t.kids && x in t.kids && a != x
    ensures t.IsAbove(a, x) <==> x.parentNode != null && t.InSubtree(a, x.parentNode)
  {
    if t.IsAbove(a, x) {
      SubtreeParent(t, a, x);
      var p :| p in t.kids && t.InSubtree(a, p) && x in t.kids[p];
      KidsAreAttached(t, p, x);
    }
    if x.parentNode != null && t.InSubtree(a, x.parentNode) {
      var p: Node := x.parentNode;
      assert Upward(x, t);
      var i :| 0 <= i < |t.kids[p]| && t.kids[p][i] == x;
      SubtreeChild(t, a, p, i);
    }
  }

  /** a and its following siblings. */
  ghost function Onward(t: Shape, a: Node): (r: seq<Node>)
    requires t.Valid() && a in t.kids
    reads t.Nodes()`firstChild, t.Nodes()`parentNode, t.Nodes()`prevSibling, t.Nodes()`nextSibling
  {
    if a.parentNode == null then [a]
    else ParentKnown(t, a); From(t.kids[a.parentNode], a)
  }

  lemma OnwardKnown(t: Shape, a: Node)
    requires t.Valid() && a in t.kids
    ensures var r := Onward(t, a);
            && Behind(r) && r != [] && r[0] == a
            && forall i {:trigger r[i]} | 0 <= i < |r| :: r[i] in t.kids
                 && t.height[r[i]] < if a.parentNode == null || a.parentNode !in t.kids then t.height[a] + 1 else t.height[a.parentNode]
  {
    hide ChildLinks;
    assert Upward(a, t);
    if a.parentNode != null {
      var c := t.kids[a.parentNode];
      var i :| 0 <= i < |c| && c[i] == a;
      FromAt(c, i);
      BehindKids(t, a.parentNode);
      BehindFrom(c, i);
    }
  }

  /** a or one of its following siblings is a proper ancestor of x. */
  ghost predicate Refused(t: Shape, a: Node, x: Node)
    requires t.Valid() && a in t.kids && x in t.kids
    reads t.Nodes()`firstChild, t.Nodes()`parentNode, t.Nodes()`prevSibling, t.Nodes()`nextSibling
  {
    OnwardKnown(t, a);
    exists b :: b in Onward(t, a) && t.IsAbove(b, x)
  }

  /** For a detached node and for a child of x this is just being a proper ancestor. */
  lemma RefusedIffAbove(t: Shape, a: Node, x: Node)
    requires t.Valid() && a in t.kids && x in t.kids
    ensures t.IsAbove(a, x) ==> Refused(t, a, x)
    ensures a.parentNode == null || a.parentNode == x ==> (Refused(t, a, x) <==> t.IsAbove(a, x))
  {
    hide ChildLinks, Upward;
    OnwardKnown(t, a);
    var r := Onward(t, a);
    assert r[0] == a;
    if a.parentNode == x && Refused(t, a, x) {
      var b :| b in r && t.IsAbove(b, x);
      KidsAreAttached(t, x, a);
      var c := t.kids[x];
      var i :| 0 <= i < |c| && c[i] == a;
      FromAt(c, i);
      var j :| 0 <= j < |c| && c[j] == b;
      ChildNotAbove(t, x, j);
    }
  }

  /** Siblings are not above their parent, so the walk over siblings finds nothing more. */
  lemma ChildNotAbove(t: Shape, n: Node, i: nat)
    requires t.Valid() && n in t.kids && i < |t.kids[n]|
    ensures !t.InSubtree(t.kids[n][i], n)
    ensures n.parentNode != null ==> !t.InSubtree(t.kids[n][i], n.parentNode)
  {
    var c := t.kids[n][i];
    if t.InSubtree(c, n) {
      SubtreeHeight(t, c, n);
    }
    if n.parentNode != null && t.InSubtree(c, n.parentNode) {
      AboveByParent(t, c, n);
      SubtreeHeight(t, c, n);
    }
  }

  /** The forest after the child list of n has become c, with everything above n raised over x. */
  ghost function Raised(t: Shape, n: Node, c: seq<Node>, x: Node): Shape
    requires t.Ranked() && n in t.kids && x in t.kids
  {
    Shape(t.kids[n := c],
          map m | m in t.kids :: if t.InSubtree(m, n) then t.height[m] + t.height[x] + 1 else t.height[m])
  }

  lemma RaisedRanked(t: Shape, n: Node, c: seq<Node>, x: Node)
    requires t.Ranked() && n in t.kids && x in t.kids && !t.InSubtree(x, n)
    requires NoDup(c) && forall y | y in c :: y == x || y in t.kids[n]
    ensures Raised(t, n, c, x).Ranked()
  {
    var u := Raised(t, n, c, x);
    assert t.InSubtree(n, n);
    forall m, i {:trigger u.kids[m][i]} | m in u.kids && 0 <= i < |u.kids[m]|
      ensures u.kids[m][i] in u.kids && u.height[u.kids[m][i]] < u.height[m]
    {
      var k := u.kids[m][i];
      if m == n {
        assert k in c;
        if k != x {
          var j :| 0 <= j < |t.kids[n]| && t.kids[n][j] == k;
          if t.InSubtree(k, n) {
            SubtreeHeight(t, k, n);
          }
        }
      } else if t.InSubtree(k, n) {
        assert t.InSubtree(t.kids[m][i], n);
        assert t.InSubtree(m, n);
      }
    }
  }

  lemma RemovedRanked(t: Shape, n: Node, x: Node)
    requires t.Ranked() && n in t.kids
    ensures t.(kids := t.kids[n := Without(t.kids[n], x)]).Ranked()
  {
    hide NoDup, Without;
    WithoutKeepsOrder(t.kids[n], x);
    var u := t.(kids := t.kids[n := Without(t.kids[n], x)]);
    forall m, i {:trigger u.kids[m][i]} | m in u.kids && 0 <= i < |u.kids[m]|
      ensures u.kids[m][i] in u.kids && u.height[u.kids[m][i]] < u.height[m]
    {
      if m == n {
        assert u.kids[m][i] in Without(t.kids[n], x);
        var j :| 0 <= j < |t.kids[n]| && t.kids[n][j] == u.kids[m][i];
      } else {
        assert u.kids[m][i] == t.kids[m][i];
      }
    }
  }

  lemma NoKid(t: Shape, x: Node)
    requires t.Valid() && x in t.kids && x.parentNode == null
    ensures forall m | m in t.kids :: x !in t.kids[m]
  {
    forall m | m in t.kids
      ensures x !in t.kids[m]
    {
      KidsAreAttached(t, m, x);
    }
  }

  /** Child lists are disjoint. */
  lemma OtherKids(t: Shape, n: Node)
    requires t.Valid() && n in t.kids
    ensures forall m, x | m in t.kids && m != n && x in t.kids[m] :: x !in t.kids[n]
    ensures forall x | x in t.kids[n] :: x in t.kids && x.parentNode == n
  {
    forall m, x | m in t.kids && x in t.kids[m]
      ensures x in t.kids && x.parentNode == m
    {
      KidsAreAttached(t, m, x);
    }
  }

  // ---- what no forest looks like ----

  /** A child with a parent is where that parent or its previous sibling points to. */
  lemma ListedAt(t: Shape, x: Node)
    requires t.Valid() && x in t.kids && x.parentNode != null
    ensures x.parentNode in t.kids
    ensures if x.prevSibling == null then x.parentNode.firstChild == x
            else && x.prevSibling in t.kids[x.parentNode] && x.prevSibling in t.kids && x.prevSibling != x
                 && x.prevSibling.parentNode == x.parentNode && x.prevSibling.nextSibling == x
  {
    ParentKnown(t, x);
    var c := t.kids[x.parentNode];
    assert ChildLinks(x.parentNode, c);
    var i :| 0 <= i < |c| && c[i] == x;
    assert Linked(x.parentNode, c, i);
    if i > 0 {
      assert Linked(x.parentNode, c, i - 1);
    }
  }

  lemma FirstKnows(w: Shape, q: Node)
    requires w.Valid() && q in w.kids && q.firstChild != null
    ensures q.firstChild.parentNode == q
  {
    assert ChildLinks(q, w.kids[q]) && Linked(q, w.kids[q], 0);
  }

  lemma NextKnows(w: Shape, y: Node)
    requires w.Valid() && y in w.kids && y.nextSibling != null
    ensures y.nextSibling != y && y.parentNode != null && y.nextSibling.parentNode == y.parentNode
  {
    assert Upward(y, w);
    var c := w.kids[y.parentNode];
    assert ChildLinks(y.parentNode, c);
    var i :| 0 <= i < |c| && c[i] == y;
    assert Linked(y.parentNode, c, i);
    assert Linked(y.parentNode, c, i + 1);
  }

  lemma ParentDiffers(w: Shape, x: Node)
    requires w.Valid() && x in w.kids
    ensures x.parentNode != x
  {
    if x.parentNode != null {
      ParentKnown(w, x);
      var i :| 0 <= i < |w.kids[x.parentNode]| && w.kids[x.parentNode][i] == x;
      assert w.height[w.kids[x.parentNode][i]] < w.height[x.parentNode];
    }
  }

  /**
   * x is its own parent or its own sibling, or the old parent q or the previous sibling y in its child list
   * still points to x, which has another parent.
   */
  ghost predicate Torn(x: Node, q: Node?, y: Node?, nodes: set<Node>)
    reads x`parentNode, x`nextSibling, (if q == null then {} else {q})`firstChild
    reads (if y == null then {} else {y})`parentNode, (if y == null then {} else {y})`nextSibling
  {
    || x.parentNode == x
    || x.nextSibling == x
    || (q != null && q in nodes && x.parentNode != q
        && if y == null then q.firstChild == x else y in nodes && y.parentNode == q && y.nextSibling == x)
  }

  lemma NoForest(w: Shape, x: Node, q: Node?, y: Node?)
    requires x in w.kids && Torn(x, q, y, w.kids.Keys)
    ensures !w.Valid()
  {
    if w.Valid() {
      ParentDiffers(w, x);
      if x.nextSibling != null {
        NextKnows(w, x);
      }
      if y == null {
        FirstKnows(w, q);
      } else {
        NextKnows(w, y);
      }
      assert false;
    }
  }

  lemma NoForests(x: Node, q: Node?, y: Node?, nodes: set<Node>)
    requires x in nodes && Torn(x, q, y, nodes)
    ensures forall w: Shape | w.kids.Keys == nodes :: !w.Valid()
  {
    forall w: Shape | w.kids.Keys == nodes
      ensures !w.Valid()
    {
      NoForest(w, x, q, y);
    }
  }

  // ---- the operations ----

  /** What removeChild changes: old and new links of all nodes. */
  twostate predicate Detached(nodeptr: Node, oldChild: Node, nodes: set<Node>)
    reads nodes`firstChild, nodes`parentNode, nodes`prevSibling, nodes`nextSibling
  {
    forall x | x in nodes ::
      && x.parentNode == (if x == oldChild then null else old(x.parentNode))
      && x.firstChild == (if x == nodeptr && old(x.firstChild) == oldChild then old(oldChild.nextSibling)
                          else old(x.firstChild))
      && x.prevSibling == (if x == oldChild then null
                           else if x == old(oldChild.nextSibling) then old(oldChild.prevSibling) else old(x.prevSibling))
      && x.nextSibling == (if x == oldChild then null
                           else if x == old(oldChild.prevSibling) then old(oldChild.nextSibling) else old(x.nextSibling))
  }

  /** ixmlNode_removeChild, on a forest or on any other links that stay among the nodes. */
  method RemoveChild(nodeptr: Node?, oldChild: Node?, ghost t: Shape)
    returns (code: Code, returnNode: Node?, ghost u: Shape)
    requires (nodeptr != null ==> nodeptr in t.kids) && (oldChild != null ==> oldChild in t.kids)
    requires t.Valid() || (oldChild != null ==> Within(oldChild, t.Nodes()))
    modifies t.Nodes()`firstChild, t.Nodes()`parentNode, t.Nodes()`prevSibling, t.Nodes()`nextSibling
    ensures code == if nodeptr == null || oldChild == null then InvalidParameter
                    else if old(oldChild.parentNode) != nodeptr then NotFoundErr
                    else Success
    ensures old(t.Valid()) && nodeptr != null && oldChild != null ==> (code == Success <==> oldChild in t.kids[nodeptr])
    ensures old(t.Valid()) ==> u.Valid()
    ensures u.height == t.height
    ensures code == Success ==>
              && returnNode == oldChild && Detached(nodeptr, oldChild, t.Nodes())
              && u.kids == t.kids[nodeptr := Without(t.kids[nodeptr], oldChild)]
    ensures code != Success ==> u == t && returnNode == null
    ensures forall x | x in t.kids && (code == Success ==> old(t.Valid()) && x != nodeptr && x !in t.kids[nodeptr]) ::
              unchanged(x)
  {
    hide ChildLinks, Upward, Detached;
    u, returnNode := t, null;
    if nodeptr == null || oldChild == null {
      return InvalidParameter, null, t;
    }
    if t.Valid() {
      KidsAreAttached(t, nodeptr, oldChild);
    }
    if !IsParent(nodeptr, oldChild) {
      return NotFoundErr, null, t;
    }
    if t.Valid() {
      SiblingsKnown(t, nodeptr, oldChild);
    }
    u := RemoveKid(nodeptr, oldChild, t);
    return Success, oldChild, u;
  }

  /** The siblings of x are among the nodes. */
  ghost predicate Within(x: Node, nodes: set<Node>)
    reads x`prevSibling, x`nextSibling
  {
    (x.prevSibling == null || x.prevSibling in nodes) && (x.nextSibling == null || x.nextSibling in nodes)
  }

  lemma SiblingsKnown(t: Shape, n: Node, x: Node)
    requires t.Valid() && n in t.kids && x in t.kids[n]
    ensures x.prevSibling != null ==> x.prevSibling in t.kids[n] && x.prevSibling in t.kids && x.prevSibling.parentNode == n
    ensures x.nextSibling != null ==> x.nextSibling in t.kids[n] && x.nextSibling in t.kids && x.nextSibling.parentNode == n
  {
    var c := t.kids[n];
    assert ChildLinks(n, c);
    var i :| 0 <= i < |c| && c[i] == x;
    assert Linked(n, c, i);
    if i > 0 {
      assert Linked(n, c, i - 1);
    }
    if i + 1 < |c| {
      assert Linked(n, c, i + 1);
    }
  }

  lemma WithoutKeeps(c: seq<Node>, x: Node, n: Node)
    requires n in c && n != x
    ensures n in Without(c, x)
  {
    if c[0] != x && c[0] != n {
      WithoutKeeps(c[1..], x, n);
    }
  }

  lemma WithoutWithin(c: seq<Node>, x: Node)
    ensures forall n | n in Without(c, x) :: n in c
  {
    if c != [] && c[0] != x {
      WithoutWithin(c[1..], x);
    }
  }

  /** The removal itself, for a child of nodeptr. */
  method RemoveKid(nodeptr: Node, oldChild: Node, ghost t: Shape) returns (ghost u: Shape)
    requires nodeptr in t.kids && oldChild in t.kids && Within(oldChild, t.Nodes())
    requires t.Valid() ==> oldChild in t.kids[nodeptr]
    modifies t.Nodes()`firstChild, t.Nodes()`parentNode, t.Nodes()`prevSibling, t.Nodes()`nextSibling
    ensures Detached(nodeptr, oldChild, t.Nodes())
    ensures u == t.(kids := t.kids[nodeptr := Without(t.kids[nodeptr], oldChild)])
    ensures old(t.Valid()) ==> u.Valid()
    ensures old(t.Valid()) ==> forall x | x in t.kids && x != nodeptr && x !in t.kids[nodeptr] :: unchanged(x)
  {
    hide Linked, NoDup, Without, ChildLinks, Detached, Shape.Ranked, Shape.InSubtree;
    ghost var c := t.kids[nodeptr];
    ghost var i := 0;
    ghost var valid := t.Valid();
    u := t.(kids := t.kids[nodeptr := Without(c, oldChild)]);
    if valid {
      i :| 0 <= i < |c| && c[i] == oldChild;
      RemovedRanked(t, nodeptr, oldChild);
      OtherKids(t, nodeptr);
      SiblingsKnown(t, nodeptr, oldChild);
    }
    UnlinkKid(nodeptr, oldChild, i, t);
    if valid {
      forall n | n in u.kids
        ensures Upward(n, u)
      {
        if n != oldChild {
          assert old(Upward(n, t));
          assert n.parentNode == old(n.parentNode);
          if n.parentNode == nodeptr {
            WithoutKeeps(c, oldChild, n);
          }
        }
      }
    }
  }

  method UnlinkKid(nodeptr: Node, oldChild: Node, ghost i: nat, ghost t: Shape)
    requires nodeptr in t.kids && oldChild in t.kids && Within(oldChild, t.Nodes())
    requires t.Valid() ==> i < |t.kids[nodeptr]| && oldChild == t.kids[nodeptr][i]
    modifies nodeptr`firstChild, oldChild`parentNode, oldChild`prevSibling, oldChild`nextSibling
    modifies (if oldChild.prevSibling == null then {} else {oldChild.prevSibling})`nextSibling
    modifies (if oldChild.nextSibling == null then {} else {oldChild.nextSibling})`prevSibling
    ensures Detached(nodeptr, oldChild, t.Nodes())
    ensures oldChild.parentNode == null && oldChild.prevSibling == null && oldChild.nextSibling == null
    ensures old(t.Valid()) ==>
              && ChildLinks(nodeptr, Without(t.kids[nodeptr], oldChild))
              && forall n | n in t.kids && n != nodeptr :: ChildLinks(n, t.kids[n])
  {
    hide Linked, Without, ChildLinks, Detached;
    ghost var c := t.kids[nodeptr];
    ghost var valid := t.Valid();
    if valid {
      WithoutAt(c, i);
      OtherKids(t, nodeptr);
      SiblingsKnown(t, nodeptr, oldChild);
    }
    UnlinkAt(nodeptr, c, oldChild, i, t.Nodes());
    if valid {
      forall n | n in t.kids && n != nodeptr
        ensures ChildLinks(n, t.kids[n])
      {
        assert old(ChildLinks(n, t.kids[n]));
      }
    }
  }

  /** Takes the i-th child out of the list c, if oldChild is there. */
  method UnlinkAt(nodeptr: Node, ghost c: seq<Node>, oldChild: Node, ghost i: nat, ghost nodes: set<Node>)
    modifies nodeptr`firstChild, oldChild`parentNode, oldChild`prevSibling, oldChild`nextSibling
    modifies (if oldChild.prevSibling == null then {} else {oldChild.prevSibling})`nextSibling
    modifies (if oldChild.nextSibling == null then {} else {oldChild.nextSibling})`prevSibling
    ensures Detached(nodeptr, oldChild, nodes)
    ensures oldChild.parentNode == null && oldChild.prevSibling == null && oldChild.nextSibling == null
    ensures old(ChildLinks(nodeptr, c)) && NoDup(c) && i < |c| && oldChild == c[i] ==> ChildLinks(nodeptr, c[..i] + c[i + 1..])
  {
    ghost var known := nodes + {nodeptr, oldChild} + set x | x in c;
    Unlink(nodeptr, oldChild, known);
    if old(ChildLinks(nodeptr, c)) && NoDup(c) && i < |c| && oldChild == c[i] {
      ghost var d := c[..i] + c[i + 1..];
      assert old(Linked(nodeptr, c, i));
      forall j | 0 <= j < |d|
        ensures Linked(nodeptr, d, j)
      {
        ghost var k := if j < i then j else j + 1;
        assert d[j] == c[k] && c[k] != c[i];
        assert old(Linked(nodeptr, c, k));
      }
    }
  }

  /** The assignments of removeChild. */
  method Unlink(nodeptr: Node, oldChild: Node, ghost nodes: set<Node>)
    modifies nodeptr`firstChild, oldChild`parentNode, oldChild`prevSibling, oldChild`nextSibling
    modifies (if oldChild.prevSibling == null then {} else {oldChild.prevSibling})`nextSibling
    modifies (if oldChild.nextSibling == null then {} else {oldChild.nextSibling})`prevSibling
    ensures Detached(nodeptr, oldChild, nodes)
  {
    if oldChild.prevSibling != null {
      oldChild.prevSibling.nextSibling := oldChild.nextSibling;
    }
    if nodeptr.firstChild == oldChild {
      nodeptr.firstChild := oldChild.nextSibling;
    }
    if oldChild.nextSibling != null {
      oldChild.nextSibling.prevSibling := oldChild.prevSibling;
    }
    oldChild.nextSibling := null;
    oldChild.prevSibling := null;
    oldChild.parentNode := null;
  }

  /** The new child knows its parent and its place. */
  ghost predicate Placed(nodeptr: Node, newChild: Node, refChild: Node?, c: seq<Node>)
    reads nodeptr`firstChild, newChild`parentNode, newChild`prevSibling, newChild`nextSibling
    reads (if refChild == null then {} else {refChild})`parentNode, (if refChild == null then {} else {refChild})`prevSibling
    reads (set x | x in c)`nextSibling
  {
    && newChild.parentNode == nodeptr
    && if refChild != null then
         newChild.nextSibling == refChild && refChild.prevSibling == newChild && refChild.parentNode == nodeptr
       else if c == [] then nodeptr.firstChild == newChild
       else c[|c| - 1].nextSibling == newChild && newChild.prevSibling == c[|c| - 1]
  }

  /**
   * Puts newChild in front of the i-th child. The list is right afterwards if newChild has no previous
   * sibling left over from another list and is not its own reference child.
   */
  method LinkBefore(nodeptr: Node, newChild: Node, refChild: Node, ghost c: seq<Node>, ghost i: nat)
    requires ChildLinks(nodeptr, c) && NoDup(c) && newChild !in c
    requires (i < |c| && refChild == c[i]) || (refChild == newChild && newChild.prevSibling == null)
    modifies nodeptr`firstChild, newChild`parentNode, newChild`prevSibling, newChild`nextSibling
    modifies (set x | x in c)`prevSibling, (set x | x in c)`nextSibling
    ensures Placed(nodeptr, newChild, refChild, c)
    ensures refChild != newChild && old(newChild.prevSibling) == null ==>
              ChildLinks(nodeptr, c[..i] + [newChild] + c[i..])
    ensures refChild == newChild && newChild != nodeptr ==> ChildLinks(nodeptr, c)
    ensures refChild != newChild ==> refChild.nextSibling == old(refChild.nextSibling)
  {
    assert refChild != newChild ==> Linked(nodeptr, c, i);
    newChild.nextSibling := refChild;
    if refChild.prevSibling != null {
      refChild.prevSibling.nextSibling := newChild;
      newChild.prevSibling := refChild.prevSibling;
    }
    refChild.prevSibling := newChild;
    if newChild.prevSibling == null {
      nodeptr.firstChild := newChild;
    }
    newChild.parentNode := nodeptr;
    if refChild != newChild && old(newChild.prevSibling) == null {
      ghost var d := c[..i] + [newChild] + c[i..];
      forall j | 0 <= j < |d|
        ensures Linked(nodeptr, d, j)
      {
        if j != i {
          ghost var k := if j < i then j else j - 1;
          assert d[j] == c[k];
          assert old(Linked(nodeptr, c, k));
        }
      }
    } else if refChild == newChild {
      forall j | 0 <= j < |c|
        ensures Linked(nodeptr, c, j)
      {
        assert old(Linked(nodeptr, c, j));
      }
    }
  }

  /** Puts newChild behind the last child. */
  method LinkLast(nodeptr: Node, newChild: Node, ghost c: seq<Node>)
    requires ChildLinks(nodeptr, c) && NoDup(c) && newChild !in c
    modifies nodeptr`firstChild, newChild`parentNode, newChild`prevSibling, (set x | x in c)`nextSibling
    ensures Placed(nodeptr, newChild, null, c)
    ensures old(newChild.prevSibling) == null && old(newChild.nextSibling) == null ==> ChildLinks(nodeptr, c + [newChild])
  {
    newChild.parentNode := nodeptr;
    if nodeptr.firstChild == null {
      nodeptr.firstChild := newChild;
    } else {
      var prev: Node := nodeptr.firstChild;
      assert Linked(nodeptr, c, 0);
      var next := prev.nextSibling;
      ghost var k := 0;
      while next != null
        invariant 0 <= k < |c| && prev == c[k] && next == NodeAt(c, k + 1)
        decreases |c| - k
      {
        prev := next;
        k := k + 1;
        assert Linked(nodeptr, c, k);
        next := prev.nextSibling;
      }
      prev.nextSibling := newChild;
      newChild.prevSibling := prev;
    }
    ghost var d := c + [newChild];
    forall j | 0 <= j < |c|
      ensures Linked(nodeptr, d, j)
    {
      assert old(Linked(nodeptr, c, j));
    }
  }

  /** The child sequence c with x in front of r, or at the end. */
  ghost function Inserted(c: seq<Node>, x: Node, r: Node?): seq<Node> {
    if r == null then c + [x] else Before(c, x, r)
  }

  /** newChild is in no child list or in that of nodeptr, and is neither the parent nor the place to be. */
  ghost predicate Movable(nodeptr: Node, newChild: Node, refChild: Node?)
    reads newChild`parentNode
  {
    newChild != nodeptr && newChild != refChild && (newChild.parentNode == null || newChild.parentNode == nodeptr)
  }

  /** Links newChild, which is no child of nodeptr any more, in front of refChild or behind the last child. */
  method LinkKid(nodeptr: Node, newChild: Node, refChild: Node?, ghost t: Shape)
    requires t.Valid() && nodeptr in t.kids && newChild in t.kids && newChild.parentNode != nodeptr
    requires refChild == null || refChild in t.kids[nodeptr] || (refChild == newChild && newChild.parentNode == null)
    modifies nodeptr`firstChild, newChild`parentNode, newChild`prevSibling, newChild`nextSibling
    modifies (set x | x in t.kids[nodeptr])`prevSibling, (set x | x in t.kids[nodeptr])`nextSibling
    ensures Placed(nodeptr, newChild, refChild, t.kids[nodeptr])
    ensures old(Movable(nodeptr, newChild, refChild)) ==>
              && ChildLinks(nodeptr, Inserted(t.kids[nodeptr], newChild, refChild))
              && forall n | n in t.kids && n != nodeptr :: ChildLinks(n, t.kids[n])
    ensures refChild == newChild && newChild != nodeptr ==> forall n | n in t.kids :: ChildLinks(n, t.kids[n])
    ensures refChild != null && refChild != newChild ==> refChild.nextSibling == old(refChild.nextSibling)
  {
    hide Linked, Before, NoDup, ChildLinks, Placed;
    ghost var c := t.kids[nodeptr];
    OtherKids(t, nodeptr);
    assert Upward(newChild, t);
    if newChild.parentNode == null {
      NoKid(t, newChild);
    }
    if refChild != null {
      ghost var i := 0;
      if refChild in c {
        i :| 0 <= i < |c| && c[i] == refChild;
        BeforeAt(c, newChild, i);
      }
      LinkBefore(nodeptr, newChild, refChild, c, i);
    } else {
      LinkLast(nodeptr, newChild, c);
    }
    if old(newChild.parentNode) == null {
      forall n | n in t.kids && n != nodeptr
        ensures ChildLinks(n, t.kids[n])
      {
        assert old(ChildLinks(n, t.kids[n]));
      }
    }
  }

  lemma {:induction false} BeforeMembers(c: seq<Node>, x: Node, r: Node)
    requires r in c
    ensures x in Before(c, x, r)
    ensures forall n | n in c :: n in Before(c, x, r)
    ensures forall n | n in Before(c, x, r) :: n == x || n in c
  {
    if c[0] != r {
      BeforeMembers(c[1..], x, r);
    }
  }

  lemma InsertedList(c: seq<Node>, x: Node, r: Node?)
    requires NoDup(c) && x !in c && (r != null ==> r in c)
    ensures NoDup(Inserted(c, x, r))
    ensures x in Inserted(c, x, r)
    ensures forall n | n in c :: n in Inserted(c, x, r)
    ensures forall n | n in Inserted(c, x, r) :: n == x || n in c
  {
    if r != null {
      BeforeMembers(c, x, r);
      BeforeNoDup(c, x, r);
    }
  }

  lemma {:induction false} BeforeNoDup(c: seq<Node>, x: Node, r: Node)
    requires NoDup(c) && x !in c && r in c
    ensures NoDup(Before(c, x, r))
  {
    if c[0] == r {
      NoDupCons(x, c);
    } else {
      BeforeNoDup(c[1..], x, r);
      BeforeMembers(c[1..], x, r);
      NoDupCons(c[0], Before(c[1..], x, r));
    }
  }

  lemma NoDupCons(h: Node, c: seq<Node>)
    requires NoDup(c) && h !in c
    ensures NoDup([h] + c)
  {
  }

  lemma AttachedRanked(t: Shape, n: Node, x: Node, r: Node?)
    requires t.Ranked() && n in t.kids && x in t.kids && !t.InSubtree(x, n)
    requires x !in t.kids[n] && (r != null ==> r in t.kids[n])
    ensures Raised(t, n, Inserted(t.kids[n], x, r), x).Ranked()
  {
    hide Inserted;
    InsertedList(t.kids[n], x, r);
    RaisedRanked(t, n, Inserted(t.kids[n], x, r), x);
  }

  lemma AttachedList(t: Shape, n: Node, x: Node, r: Node?)
    requires t.Ranked() && n in t.kids && x in t.kids && !t.InSubtree(x, n)
    requires x !in t.kids[n] && (r != null ==> r in t.kids[n])
    ensures x != n && x in Inserted(t.kids[n], x, r)
    ensures forall y | y in t.kids[n] :: y in Inserted(t.kids[n], x, r)
  {
    hide Inserted;
    assert t.InSubtree(x, x);
    InsertedList(t.kids[n], x, r);
  }

  lemma AttachedUpward(t: Shape, u: Shape, nodeptr: Node, newChild: Node, refChild: Node?)
    requires t.Ranked() && nodeptr in t.kids && newChild !in t.kids[nodeptr] && (refChild != null ==> refChild in t.kids[nodeptr])
    requires u.kids == t.kids[nodeptr := Inserted(t.kids[nodeptr], newChild, refChild)]
    requires newChild.parentNode == nodeptr && forall n | n in t.kids && n != newChild :: Upward(n, t)
    ensures forall n | n in u.kids :: Upward(n, u)
  {
    hide Inserted, NoDup;
    InsertedList(t.kids[nodeptr], newChild, refChild);
    forall n | n in u.kids
      ensures Upward(n, u)
    {
      assert n != newChild ==> Upward(n, t);
    }
  }

  /** A node that is not above nodeptr becomes its child. */
  method AttachKid(nodeptr: Node, newChild: Node, refChild: Node?, ghost t: Shape) returns (ghost u: Shape)
    requires t.Valid() && nodeptr in t.kids && newChild in t.kids && newChild.parentNode != nodeptr
    requires refChild == null || refChild in t.kids[nodeptr] || (refChild == newChild && newChild.parentNode == null)
    requires !t.IsAbove(newChild, nodeptr)
    modifies t.Nodes()`firstChild, t.Nodes()`parentNode, t.Nodes()`prevSibling, t.Nodes()`nextSibling
    ensures Placed(nodeptr, newChild, refChild, t.kids[nodeptr])
    ensures old(Movable(nodeptr, newChild, refChild)) ==>
              u.Valid() && u.kids == t.kids[nodeptr := Inserted(t.kids[nodeptr], newChild, refChild)]
    ensures refChild == newChild && newChild != nodeptr ==> u == t && u.ValidBut(newChild)
    ensures refChild != null ==> Within(refChild, (set x | x in t.kids[nodeptr]) + {newChild})
    ensures !old(Movable(nodeptr, newChild, refChild)) ==>
              Torn(newChild, old(newChild.parentNode), old(newChild.prevSibling), t.Nodes())
    ensures forall x | x in t.kids && x != nodeptr && x != newChild && x !in t.kids[nodeptr] :: unchanged(x)
  {
    hide Linked, NoDup, Inserted, ChildLinks, Shape.Ranked, Shape.InSubtree;
    u := t;
    OtherKids(t, nodeptr);
    ghost var q, y := newChild.parentNode, newChild.prevSibling;
    ghost var movable := Movable(nodeptr, newChild, refChild);
    if q == null {
      NoKid(t, newChild);
    }
    if refChild != null && refChild != newChild {
      SiblingsKnown(t, nodeptr, refChild);
    }
    if movable {
      AttachedList(t, nodeptr, newChild, refChild);
      AttachedRanked(t, nodeptr, newChild, refChild);
      u := Raised(t, nodeptr, Inserted(t.kids[nodeptr], newChild, refChild), newChild);
    } else if q != null {
      ListedAt(t, newChild);
      assert q != nodeptr;
    }
    LinkKid(nodeptr, newChild, refChild, t);
    forall n | n in t.kids && n != newChild
      ensures Upward(n, t)
    {
      assert old(Upward(n, t));
    }
    if movable {
      AttachedUpward(t, u, nodeptr, newChild, refChild);
    }
  }

  /** What the recursion of isAncestor finds is an ancestor among the siblings. */
  lemma AnyAboveMeans(t: Shape, sibs: seq<Node>, x: Node)
    requires t.Valid() && x in t.kids && forall i {:trigger sibs[i]} | 0 <= i < |sibs| :: sibs[i] in t.kids
    ensures x.parentNode != null && AnyAbove(t, sibs, x.parentNode) <==> exists b :: b in sibs && t.IsAbove(b, x)
  {
    hide ChildLinks, Upward;
    forall b | b in sibs
      ensures t.IsAbove(b, x) <==> x.parentNode != null && t.InSubtree(b, x.parentNode)
    {
      if b != x {
        AboveByParent(t, b, x);
      } else if x.parentNode != null && t.InSubtree(x, x.parentNode) {
        ParentKnown(t, x);
        SubtreeHeight(t, x, x.parentNode);
      }
    }
    if x.parentNode != null && AnyAbove(t, sibs, x.parentNode) {
      var i :| 0 <= i < |sibs| && t.InSubtree(sibs[i], x.parentNode);
      assert sibs[i] in sibs;
    }
    if b :| b in sibs && t.IsAbove(b, x) {
      var i :| 0 <= i < |sibs| && sibs[i] == b;
      assert t.InSubtree(sibs[i], x.parentNode);
    }
  }

  /** The call of isAncestor in insertBefore, appendChild and replaceChild. */
  method CheckAncestor(newChild: Node, nodeptr: Node, ghost t: Shape) returns (found: bool)
    requires t.Valid() && nodeptr in t.kids && newChild in t.kids
    ensures found == Refused(t, newChild, nodeptr)
  {
    hide ChildLinks, Upward, Behind;
    OnwardKnown(t, newChild);
    ghost var sibs := Onward(t, newChild);
    AnyAboveMeans(t, sibs, nodeptr);
    found := IsAncestor(newChild, nodeptr, t, sibs,
      if newChild.parentNode == null || newChild.parentNode !in t.kids then t.height[newChild] + 1 else t.height[newChild.parentNode]);
  }

  /**
   * ixmlNode_insertBefore. A new child that is a child of nodeptr already is taken out first; one that is
   * a child of another node is not, and nodeptr and refChild themselves are not refused. So the links are
   * those of a forest afterwards exactly when the new child was movable.
   */
  method InsertBefore(nodeptr: Node?, newChild: Node?, refChild: Node, ghost t: Shape)
    returns (code: Code, ghost u: Shape)
    requires t.Valid() && refChild in t.kids
    requires (nodeptr != null ==> nodeptr in t.kids) && (newChild != null ==> newChild in t.kids)
    modifies t.Nodes()`firstChild, t.Nodes()`parentNode, t.Nodes()`prevSibling, t.Nodes()`nextSibling
    ensures code == if nodeptr == null || newChild == null then InvalidParameter
                    else if !AllowedTypes(nodeptr.nodeType, newChild.nodeType) then HierarchyRequestErr
                    else if old(Refused(t, newChild, nodeptr)) then HierarchyRequestErr
                    else if nodeptr.ownerDocument != newChild.ownerDocument then WrongDocumentErr
                    else if refChild !in t.kids[nodeptr] then NotFoundErr
                    else Success
    ensures code == Success && old(Movable(nodeptr, newChild, refChild)) ==>
              && u.Valid()
              && u.kids == t.kids[nodeptr := Before(Without(t.kids[nodeptr], newChild), newChild, refChild)]
    ensures code == Success && newChild == refChild ==>
              u.ValidBut(newChild) && u.kids == t.kids[nodeptr := Without(t.kids[nodeptr], newChild)]
    ensures code == Success && !old(Movable(nodeptr, newChild, refChild)) ==>
              Torn(newChild, old(newChild.parentNode), old(newChild.prevSibling), t.Nodes())
    ensures code == Success ==> Placed(nodeptr, newChild, refChild, []) && Within(refChild, (set x | x in t.kids[nodeptr]) + {newChild})
    ensures code != Success ==> u == t && u.Valid()
    ensures forall x | x in t.kids && (code == Success ==> x != nodeptr && x != newChild && x !in t.kids[nodeptr]) ::
              unchanged(x)
    ensures code == Success ==>
              ((exists w: Shape :: w.kids.Keys == t.kids.Keys && w.Valid()) <==> old(Movable(nodeptr, newChild, refChild)))
  {
    hide ChildLinks, Upward, Torn, Refused, Shape.Ranked, Shape.IsAbove;
    u := t;
    if nodeptr == null || newChild == null {
      return InvalidParameter, t;
    }
    if !AllowChildren(nodeptr, newChild) {
      return HierarchyRequestErr, t;
    }
    var above := CheckAncestor(newChild, nodeptr, t);
    if above {
      return HierarchyRequestErr, t;
    }
    if nodeptr.ownerDocument != newChild.ownerDocument {
      return WrongDocumentErr, t;
    }
    KidsAreAttached(t, nodeptr, refChild);
    if !IsParent(nodeptr, refChild) {
      return NotFoundErr, t;
    }
    code := Success;
    RefusedIffAbove(t, newChild, nodeptr);
    ghost var movable, q, y := Movable(nodeptr, newChild, refChild), newChild.parentNode, newChild.prevSibling;
    u := MoveKid(nodeptr, newChild, refChild, t);
    if !movable {
      NoForests(newChild, q, y, t.Nodes());
    }
  }

  /** Takes newChild out of the child list of nodeptr if it is there, and puts it at its new place. */
  method MoveKid(nodeptr: Node, newChild: Node, refChild: Node?, ghost t: Shape) returns (ghost u: Shape)
    requires t.Valid() && nodeptr in t.kids && newChild in t.kids
    requires !t.IsAbove(newChild, nodeptr) && (refChild != null ==> refChild in t.kids[nodeptr])
    modifies t.Nodes()`firstChild, t.Nodes()`parentNode, t.Nodes()`prevSibling, t.Nodes()`nextSibling
    ensures Placed(nodeptr, newChild, refChild, Without(t.kids[nodeptr], newChild))
    ensures old(Movable(nodeptr, newChild, refChild)) ==>
              && u.Valid()
              && u.kids == t.kids[nodeptr := Inserted(Without(t.kids[nodeptr], newChild), newChild, refChild)]
    ensures refChild != null ==> Within(refChild, (set x | x in t.kids[nodeptr]) + {newChild})
    ensures refChild == newChild ==>
              u.ValidBut(newChild) && u.kids == t.kids[nodeptr := Without(t.kids[nodeptr], newChild)]
    ensures !old(Movable(nodeptr, newChild, refChild)) ==>
              Torn(newChild, old(newChild.parentNode), old(newChild.prevSibling), t.Nodes())
    ensures forall x | x in t.kids && x != nodeptr && x != newChild && x !in t.kids[nodeptr] :: unchanged(x)
  {
    hide Without, Inserted, ChildLinks, Upward;
    KidsAreAttached(t, nodeptr, newChild);
    u := t;
    if IsParent(nodeptr, newChild) {
      ParentDiffers(t, newChild);
      var code, removed;
      code, removed, u := RemoveChild(nodeptr, newChild, t);
      WithoutWithin(t.kids[nodeptr], newChild);
      if u.InSubtree(newChild, nodeptr) {
        SubtreeHeight(u, newChild, nodeptr);
      }
      if refChild != null && refChild != newChild {
        WithoutKeeps(t.kids[nodeptr], newChild, refChild);
      }
    } else {
      WithoutNothing(t.kids[nodeptr], newChild);
    }
    u := AttachKid(nodeptr, newChild, refChild, u);
  }

  /** ixmlNode_appendChild: newChild becomes the last child. For which new children this is a forest: see insertBefore. */
  method AppendChild(nodeptr: Node?, newChild: Node?, ghost t: Shape) returns (code: Code, ghost u: Shape)
    requires t.Valid()
    requires (nodeptr != null ==> nodeptr in t.kids) && (newChild != null ==> newChild in t.kids)
    modifies t.Nodes()`firstChild, t.Nodes()`parentNode, t.Nodes()`prevSibling, t.Nodes()`nextSibling
    modifies (if newChild == null then {} else {newChild})`ownerDocument
    ensures code == if nodeptr == null || newChild == null then InvalidParameter
                    else if old(newChild.ownerDocument) != null && nodeptr.ownerDocument != old(newChild.ownerDocument)
                    then WrongDocumentErr
                    else if old(Refused(t, newChild, nodeptr)) then HierarchyRequestErr
                    else if !AllowedTypes(nodeptr.nodeType, newChild.nodeType) then HierarchyRequestErr
                    else Success
    ensures code == Success && old(Movable(nodeptr, newChild, null)) ==>
              u.Valid() && u.kids == t.kids[nodeptr := Without(t.kids[nodeptr], newChild) + [newChild]]
    ensures code == Success ==>
              && newChild.ownerDocument == nodeptr.ownerDocument
              && Placed(nodeptr, newChild, null, Without(t.kids[nodeptr], newChild))
    ensures code != Success ==> u == t && u.Valid()
    ensures forall x | x in t.kids && (code == Success ==> x != nodeptr && x != newChild && x !in t.kids[nodeptr]) ::
              unchanged(x)
    ensures code == Success ==>
              ((exists w: Shape :: w.kids.Keys == t.kids.Keys && w.Valid()) <==> old(Movable(nodeptr, newChild, null)))
  {
    hide ChildLinks, Upward, Without, Torn, Refused, Placed, Shape.Ranked, Shape.IsAbove;
    u := t;
    if nodeptr == null || newChild == null {
      return InvalidParameter, t;
    }
    if newChild.ownerDocument != null && nodeptr.ownerDocument != newChild.ownerDocument {
      return WrongDocumentErr, t;
    }
    var above := CheckAncestor(newChild, nodeptr, t);
    if above {
      return HierarchyRequestErr, t;
    }
    if !AllowChildren(nodeptr, newChild) {
      return HierarchyRequestErr, t;
    }
    code := Success;
    RefusedIffAbove(t, newChild, nodeptr);
    ghost var movable, q, y := Movable(nodeptr, newChild, null), newChild.parentNode, newChild.prevSibling;
    u := MoveKid(nodeptr, newChild, null, t);
    newChild.ownerDocument := nodeptr.ownerDocument;
    if !movable {
      NoForests(newChild, q, y, t.Nodes());
    }
  }

  /**
   * ixmlNode_replaceChild: an insertion in front of oldChild, and the removal of oldChild. The new child may
   * be oldChild itself, which is removed then.
   */
  method ReplaceChild(nodeptr: Node?, newChild: Node?, oldChild: Node?, ghost t: Shape)
    returns (code: Code, returnNode: Node?, ghost u: Shape)
    requires t.Valid() && (oldChild != null ==> oldChild in t.kids)
    requires (nodeptr != null ==> nodeptr in t.kids) && (newChild != null ==> newChild in t.kids)
    modifies t.Nodes()`firstChild, t.Nodes()`parentNode, t.Nodes()`prevSibling, t.Nodes()`nextSibling
    ensures code == if nodeptr == null || newChild == null || oldChild == null then InvalidParameter
                    else if old(Refused(t, newChild, nodeptr)) then HierarchyRequestErr
                    else if !AllowedTypes(nodeptr.nodeType, newChild.nodeType) then HierarchyRequestErr
                    else if nodeptr.ownerDocument != newChild.ownerDocument then WrongDocumentErr
                    else if oldChild !in t.kids[nodeptr] then NotFoundErr
                    else Success
    ensures code == Success && old(Movable(nodeptr, newChild, null)) ==>
              && u.Valid()
              && u.kids == t.kids[nodeptr := Instead(Without(t.kids[nodeptr], newChild), newChild, oldChild)]
    ensures code == Success && newChild == oldChild ==> u.kids == t.kids[nodeptr := Without(t.kids[nodeptr], oldChild)]
    ensures code == Success ==> returnNode == oldChild && oldChild.parentNode == null
    ensures code != Success ==> u == t && u.Valid() && returnNode == null
    ensures forall x | x in t.kids && (code == Success ==> x != nodeptr && x != newChild && x !in t.kids[nodeptr]) ::
              unchanged(x)
    ensures code == Success ==>
              ((exists w: Shape :: w.kids.Keys == t.kids.Keys && w.Valid()) <==> old(Movable(nodeptr, newChild, null)))
  {
    hide ChildLinks, Upward, Before, Without, Instead, Torn, Refused, Shape.Ranked, Shape.IsAbove;
    u, returnNode := t, null;
    if nodeptr == null || newChild == null || oldChild == null {
      return InvalidParameter, null, t;
    }
    var above := CheckAncestor(newChild, nodeptr, t);
    if above {
      return HierarchyRequestErr, null, t;
    }
    if !AllowChildren(nodeptr, newChild) {
      return HierarchyRequestErr, null, t;
    }
    if nodeptr.ownerDocument != newChild.ownerDocument {
      return WrongDocumentErr, null, t;
    }
    KidsAreAttached(t, nodeptr, oldChild);
    if !IsParent(nodeptr, oldChild) {
      return NotFoundErr, null, t;
    }
    ghost var movable, q, y := Movable(nodeptr, newChild, null), newChild.parentNode, newChild.prevSibling;
    u := ReplaceKid(nodeptr, newChild, oldChild, t);
    if !movable {
      NoForests(newChild, q, y, t.Nodes());
    }
    return Success, oldChild, u;
  }

  /** The replacement itself, when nothing speaks against it. */
  method ReplaceKid(nodeptr: Node, newChild: Node, oldChild: Node, ghost t: Shape) returns (ghost u: Shape)
    requires t.Valid() && nodeptr in t.kids && newChild in t.kids
    requires !Refused(t, newChild, nodeptr) && oldChild in t.kids && oldChild in t.kids[nodeptr]
    requires AllowedTypes(nodeptr.nodeType, newChild.nodeType) && nodeptr.ownerDocument == newChild.ownerDocument
    modifies t.Nodes()`firstChild, t.Nodes()`parentNode, t.Nodes()`prevSibling, t.Nodes()`nextSibling
    ensures oldChild.parentNode == null
    ensures old(Movable(nodeptr, newChild, null)) ==>
              && u.Valid()
              && u.kids == t.kids[nodeptr := Instead(Without(t.kids[nodeptr], newChild), newChild, oldChild)]
    ensures newChild == oldChild ==> u.kids == t.kids[nodeptr := Without(t.kids[nodeptr], oldChild)]
    ensures !old(Movable(nodeptr, newChild, null)) ==>
              Torn(newChild, old(newChild.parentNode), old(newChild.prevSibling), t.Nodes())
    ensures forall x | x in t.kids && x != nodeptr && x != newChild && x !in t.kids[nodeptr] :: unchanged(x)
  {
    hide ChildLinks, Upward, Before, Without, Instead, NoDup, AllowedTypes, Refused;
    hide Shape.Ranked, Shape.Valid, Shape.ValidBut, Shape.InSubtree;
    ghost var c := Without(t.kids[nodeptr], newChild);
    WithoutWithin(t.kids[nodeptr], newChild);
    KidsDiffer(t, nodeptr);
    ReplacedKids(t.kids[nodeptr], newChild, oldChild);
    ghost var q, y := newChild.parentNode, newChild.prevSibling;
    if q != null {
      ListedAt(t, newChild);
    }
    OtherKids(t, nodeptr);
    ParentDiffers(t, oldChild);
    var code;
    code, u := InsertBefore(nodeptr, newChild, oldChild, t);
    if newChild != oldChild && !old(Movable(nodeptr, newChild, null)) {
      u := t;
    }
    assert Within(oldChild, t.Nodes());
    label Inserted:
    u := RemoveReplaced(nodeptr, oldChild, u);
    if newChild == nodeptr {
      assert newChild.parentNode == newChild;
    } else if !old(Movable(nodeptr, newChild, null)) {
      assert old@Inserted(q.firstChild) == q.firstChild;
      assert y != null ==> y.parentNode == q && y.nextSibling == newChild;
    }
  }

  lemma KidsDiffer(t: Shape, n: Node)
    requires t.Valid() && n in t.kids
    ensures NoDup(t.kids[n])
  {
  }

  lemma KidsKnown(t: Shape, n: Node, x: Node)
    requires t.Valid() && n in t.kids && x in t.kids[n]
    ensures x in t.kids
  {
  }

  /** The call of removeChild in replaceChild; it also mends a child that was inserted in front of itself. */
  method RemoveReplaced(nodeptr: Node, oldChild: Node, ghost t: Shape) returns (ghost u: Shape)
    requires nodeptr in t.kids && oldChild in t.kids && Within(oldChild, t.Nodes()) && oldChild.parentNode == nodeptr
    modifies t.Nodes()`firstChild, t.Nodes()`parentNode, t.Nodes()`prevSibling, t.Nodes()`nextSibling
    ensures Detached(nodeptr, oldChild, t.Nodes())
    ensures u == t.(kids := t.kids[nodeptr := Without(t.kids[nodeptr], oldChild)])
    ensures old(t.Valid()) ==> u.Valid()
    ensures old(t.ValidBut(oldChild)) && old(oldChild.prevSibling) == oldChild && old(oldChild.nextSibling) == oldChild ==>
              u == t && u.Valid()
  {
    hide Linked, NoDup, Without, Shape.Ranked;
    ghost var alone := t.ValidBut(oldChild) && oldChild.prevSibling == oldChild && oldChild.nextSibling == oldChild;
    var code, returned;
    code, returned, u := RemoveChild(nodeptr, oldChild, t);
    if alone {
      WithoutNothing(t.kids[nodeptr], oldChild);
      forall n | n in u.kids
        ensures ChildLinks(n, u.kids[n]) && Upward(n, u)
      {
        assert old(ChildLinks(n, t.kids[n]));
        assert n != oldChild ==> old(Upward(n, t));
      }
    }
  }


  // ---- the guards let such new children through ----

  /** A node without children is above no other node, and not refused if it has no following siblings. */
  lemma LeafNotRefused(t: Shape, a: Node, x: Node)
    requires t.Valid() && a in t.kids && x in t.kids && t.kids[a] == []
    requires a.parentNode == null || (a.parentNode in t.kids && t.kids[a.parentNode] == [a])
    ensures !Refused(t, a, x)
  {
    assert !t.IsAbove(a, x);
    assert forall b | b in Onward(t, a) :: b == a;
  }

  lemma TwoFamilies(p: Node, q: Node, r: Node, x: Node, t: Shape)
    requires t.kids == map[p := [r], q := [x], r := [], x := []] && t.height == map[p := 1, q := 1, r := 0, x := 0]
    requires p != q && p != r && p != x && q != r && q != x && r != x
    requires p.firstChild == r && r.parentNode == p && q.firstChild == x && x.parentNode == q
    requires p.parentNode == null && q.parentNode == null && r.firstChild == null && x.firstChild == null
    requires p.prevSibling == p.nextSibling == q.prevSibling == q.nextSibling == null
    requires r.prevSibling == r.nextSibling == x.prevSibling == x.nextSibling == null
    ensures t.Valid() && t.Nodes() == {p, q, r, x}
    ensures t.kids[p] == [r] && t.kids[q] == [x] && t.kids[x] == []
  {
    hide Shape.Ranked;
    FamiliesRanked(p, q, r, x, t);
    assert ChildLinks(p, [r]) && ChildLinks(q, [x]) && ChildLinks(r, []) && ChildLinks(x, []);
  }

  lemma FamiliesRanked(p: Node, q: Node, r: Node, x: Node, t: Shape)
    requires t.kids == map[p := [r], q := [x], r := [], x := []] && t.height == map[p := 1, q := 1, r := 0, x := 0]
    requires p != q && p != r && p != x && q != r && q != x && r != x
    ensures t.Ranked()
  {
  }

  /** Four element nodes: r is the one child of p, and x that of q. */
  method NewFamilies() returns (p: Node, q: Node, r: Node, x: Node, ghost t: Shape)
    ensures t.Valid() && t.Nodes() == {p, q, r, x} && fresh(t.Nodes()) && p != q && p != x
    ensures t.kids[p] == [r] && t.kids[q] == [x] && t.kids[x] == [] && p.parentNode == null && x.parentNode == q
    ensures p.nodeType == x.nodeType == ElementNode && p.ownerDocument == x.ownerDocument == null
  {
    hide ChildLinks, Upward, Shape.Ranked, Shape.Valid;
    p := new Node(ElementNode, [], [], null);
    q := new Node(ElementNode, [], [], null);
    r := new Node(ElementNode, [], [], null);
    x := new Node(ElementNode, [], [], null);
    p.firstChild, r.parentNode := r, p;
    q.firstChild, x.parentNode := x, q;
    t := Shape(map[p := [r], q := [x], r := [], x := []], map[p := 1, q := 1, r := 0, x := 0]);
    TwoFamilies(p, q, r, x, t);
  }

  lemma NeitherRefused(t: Shape, p: Node, q: Node, x: Node)
    requires t.Valid() && {p, q, x} <= t.Nodes() && t.kids[q] == [x] && t.kids[x] == []
    requires p.parentNode == null && x.parentNode == q
    ensures !Refused(t, p, p) && !Refused(t, x, p)
  {
    hide ChildLinks, Upward, Refused;
    RefusedIffAbove(t, p, p);
    LeafNotRefused(t, x, p);
  }

  /** insertBefore accepts a child of another node, and a node below itself. */
  method InsertUnmovable(itself: bool) returns (code: Code, ghost nodes: set<Node>)
    ensures code == Success && forall w: Shape | w.kids.Keys == nodes :: !w.Valid()
  {
    hide ChildLinks, Upward, Torn, Placed, Refused, Shape.Ranked, Shape.Valid;
    var p, q, r, x;
    ghost var t;
    p, q, r, x, t := NewFamilies();
    NeitherRefused(t, p, q, x);
    nodes := t.Nodes();
    code, t := InsertBefore(p, if itself then p else x, r, t);
  }

  /** So does appendChild. */
  method AppendUnmovable(itself: bool) returns (code: Code, ghost nodes: set<Node>)
    ensures code == Success && forall w: Shape | w.kids.Keys == nodes :: !w.Valid()
  {
    hide ChildLinks, Upward, Torn, Placed, Refused, Shape.Ranked, Shape.Valid;
    var p, q, r, x;
    ghost var t;
    p, q, r, x, t := NewFamilies();
    NeitherRefused(t, p, q, x);
    nodes := t.Nodes();
    code, t := AppendChild(p, if itself then p else x, t);
  }

  /** So does replaceChild. */
  method ReplaceUnmovable(itself: bool) returns (code: Code, ghost nodes: set<Node>)
    ensures code == Success && forall w: Shape | w.kids.Keys == nodes :: !w.Valid()
  {
    hide ChildLinks, Upward, Torn, Placed, Refused, Shape.Ranked, Shape.Valid;
    var p, q, r, x, returned;
    ghost var t;
    p, q, r, x, t := NewFamilies();
    NeitherRefused(t, p, q, x);
    nodes := t.Nodes();
    code, returned, t := ReplaceChild(p, if itself then p else x, r, t);
  }

  lemma SiblingTree(p: Node, a: Node, b: Node, x: Node, t: Shape)
    requires t.kids == map[p := [a, b], a := [], b := [x], x := []] && t.height == map[p := 2, a := 0, b := 1, x := 0]
    requires p != a && p != b && p != x && a != b && a != x && b != x
    requires p.firstChild == a && a.parentNode == b.parentNode == p && a.nextSibling == b && b.prevSibling == a
    requires b.firstChild == x && x.parentNode == b && p.parentNode == null && a.firstChild == null && x.firstChild == null
    requires a.prevSibling == null && b.nextSibling == null && p.prevSibling == null && p.nextSibling == null
    requires x.prevSibling == null && x.nextSibling == null
    ensures t.Valid() && t.Nodes() == {p, a, b, x}
  {
    hide Shape.Ranked;
    SiblingTreeRanked(p, a, b, x, t);
    assert ChildLinks(p, [a, b]) && ChildLinks(a, []) && ChildLinks(b, [x]) && ChildLinks(x, []);
  }

  lemma SiblingTreeRanked(p: Node, a: Node, b: Node, x: Node, t: Shape)
    requires t.kids == map[p := [a, b], a := [], b := [x], x := []] && t.height == map[p := 2, a := 0, b := 1, x := 0]
    requires p != a && p != b && p != x && a != b && a != x && b != x
    ensures t.Ranked()
  {
  }

  lemma SiblingAbove(p: Node, a: Node, b: Node, x: Node, t: Shape)
    requires t.Valid() && t.kids == map[p := [a, b], a := [], b := [x], x := []]
    requires p != a && p != b && p != x && a != b && a != x && b != x && a.parentNode == p
    ensures Refused(t, a, x) && !t.IsAbove(a, x)
  {
    hide ChildLinks, Upward;
    assert t.kids[p][1] == b && t.kids[b][0] == x;
    FromAt([a, b], 0);
    assert b in Onward(t, a);
    assert t.InSubtree(b, x);
  }

  /** <p><a/><b><x/></b></p> */
  method NewSiblings() returns (a: Node, x: Node, ghost t: Shape)
    ensures t.Valid() && a in t.kids && x in t.kids && fresh(t.Nodes()) && Refused(t, a, x) && !t.IsAbove(a, x)
    ensures a.nodeType == x.nodeType == ElementNode && a.ownerDocument == x.ownerDocument == null
  {
    hide ChildLinks, Upward, Refused, Shape.Ranked, Shape.Valid, Shape.IsAbove;
    var p := new Node(ElementNode, [], [], null);
    a := new Node(ElementNode, [], [], null);
    var b := new Node(ElementNode, [], [], null);
    x := new Node(ElementNode, [], [], null);
    p.firstChild, a.parentNode, b.parentNode, a.nextSibling, b.prevSibling := a, p, p, b, a;
    b.firstChild, x.parentNode := x, b;
    t := Shape(map[p := [a, b], a := [], b := [x], x := []], map[p := 2, a := 0, b := 1, x := 0]);
    SiblingTree(p, a, b, x, t);
    SiblingAbove(p, a, b, x, t);
  }

  /** The check refuses a as a child of x, because the sibling b behind a is above x, although a itself is not. */
  method SiblingRefused() returns (code: Code, a: Node, x: Node, ghost t: Shape)
    ensures t.Valid() && a in t.kids && x in t.kids && !t.IsAbove(a, x) && code == HierarchyRequestErr
  {
    hide ChildLinks, Upward, Torn, Placed, Refused, Shape.Ranked, Shape.Valid, Shape.IsAbove;
    a, x, t := NewSiblings();
    code, t := AppendChild(x, a, t);
  }
}
