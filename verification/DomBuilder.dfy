/**
 * The linked tree the parser builds while it reads: the document node, currentNodePtr, and the nodes
 * and attribute lists below (src/ixml/ixmlparser.c:743-874, 917-1048).
 */
module DomBuilder {
  import opened CStrings
  import opened Sequences
  import opened XmlTree
  import P = Parser
  import D = Dom
  import E = Element
  import Printer

  /** What a node of the tree carries besides its links. */
  datatype Info = Info(kind: D.NodeType, name: Bytes, value: Bytes, attrs: seq<Attr>)

  type Kids = map<D.Node, seq<D.Node>>

  type Infos = map<D.Node, Info>

  // ---- trees in the forest, without the heap ----

  /** n stands for the tree node x; nothing at or below n is an open element. */
  ghost predicate IsTree(kids: Kids, info: Infos, n: D.Node, x: Node, open: set<D.Node>)
    decreases x
  {
    && n in kids && n in info && n !in open
    && match x
       case Text(v) => info[n].kind == D.TextNode && info[n].value == v
       case CData(v) => info[n].kind == D.CDataSectionNode && info[n].value == v
       case Element(name, attrs, children) =>
         && info[n].kind == D.ElementNode && info[n].name == name && info[n].attrs == attrs
         && |kids[n]| == |children|
         && forall i | 0 <= i < |children| :: IsTree(kids, info, kids[n][i], children[i], open)
  }

  ghost predicate AreTrees(kids: Kids, info: Infos, c: seq<D.Node>, xs: seq<Node>, open: set<D.Node>) {
    |c| == |xs| && forall i | 0 <= i < |xs| :: IsTree(kids, info, c[i], xs[i], open)
  }

  /** Changes at open elements, and new nodes, leave the finished trees as they are. */
  lemma {:induction false} TreeKept(kids: Kids, info: Infos, kids1: Kids, info1: Infos, n: D.Node, x: Node,
                                    open: set<D.Node>, open1: set<D.Node>)
    requires IsTree(kids, info, n, x, open)
    requires forall m | m in kids && m !in open :: m in kids1 && kids1[m] == kids[m] && m !in open1
    requires forall m | m in info && m !in open :: m in info1 && info1[m] == info[m]
    ensures IsTree(kids1, info1, n, x, open1)
    decreases x
  {
    if x.Element? {
      forall i | 0 <= i < |x.children|
        ensures IsTree(kids1, info1, kids1[n][i], x.children[i], open1)
      {
        TreeKept(kids, info, kids1, info1, kids[n][i], x.children[i], open, open1);
      }
    }
  }

  /** The children of an open element: the finished ones, and the next open element if there is one. */
  ghost predicate OpenKids(kids: Kids, info: Infos, c: seq<D.Node>, xs: seq<Node>, next: D.Node?, open: set<D.Node>) {
    if next == null then AreTrees(kids, info, c, xs, open)
    else c != [] && c[|c| - 1] == next && AreTrees(kids, info, c[..|c| - 1], xs, open)
  }

  /** The open elements are on one path from the document node, and everything off it is finished. */
  ghost predicate Built(kids: Kids, info: Infos, root: D.Node, open: seq<D.Node>, doc: seq<Node>, path: seq<P.Frame>) {
    && |open| == |path| && root in kids && root in info && info[root].kind == D.DocumentNode
    && NoDup([root] + open)
    && OpenKids(kids, info, kids[root], doc, D.NodeAt(open, 0), OpenSet(root, open))
    && forall i | 0 <= i < |open| :: OpenElement(kids, info, open, i, path[i], OpenSet(root, open))
  }

  ghost function OpenSet(root: D.Node, open: seq<D.Node>): set<D.Node> {
    {root} + set x | x in open
  }

  ghost predicate OpenElement(kids: Kids, info: Infos, open: seq<D.Node>, i: nat, f: P.Frame, s: set<D.Node>)
    requires i < |open|
  {
    && open[i] in kids && open[i] in info
    && info[open[i]].kind == D.ElementNode && info[open[i]].name == f.name && info[open[i]].attrs == f.attrs
    && OpenKids(kids, info, kids[open[i]], f.children, D.NodeAt(open, i + 1), s)
  }

  /** currentNodePtr */
  ghost function Current(root: D.Node, open: seq<D.Node>): D.Node {
    if open == [] then root else open[|open| - 1]
  }

  lemma OpenKidsKept(kids: Kids, info: Infos, kids1: Kids, info1: Infos, c: seq<D.Node>, xs: seq<Node>, next: D.Node?,
                     open: set<D.Node>, open1: set<D.Node>)
    requires OpenKids(kids, info, c, xs, next, open)
    requires forall m | m in kids && m !in open :: m in kids1 && kids1[m] == kids[m] && m !in open1
    requires forall m | m in info && m !in open :: m in info1 && info1[m] == info[m]
    ensures OpenKids(kids1, info1, c, xs, next, open1)
  {
    hide IsTree;
    var d := if next == null then c else c[..|c| - 1];
    forall i | 0 <= i < |xs|
      ensures IsTree(kids1, info1, d[i], xs[i], open1)
    {
      TreeKept(kids, info, kids1, info1, d[i], xs[i], open, open1);
    }
  }

  /** The finished trees of a row of children, and one more behind them. */
  lemma OneMoreTree(kids: Kids, info: Infos, c: seq<D.Node>, xs: seq<Node>, n: D.Node, x: Node, s: set<D.Node>)
    requires AreTrees(kids, info, c, xs, s) && IsTree(kids, info, n, x, s)
    ensures AreTrees(kids, info, c + [n], xs + [x], s)
  {
  }

  /** Where AppendToCurrent puts a node. */
  ghost function DocWith(doc: seq<Node>, path: seq<P.Frame>, x: Node): seq<Node> {
    if path == [] then doc + [x] else doc
  }

  ghost function PathWith(path: seq<P.Frame>, x: Node): seq<P.Frame> {
    if path == [] then [] else path[|path| - 1 := path[|path| - 1].(children := path[|path| - 1].children + [x])]
  }

  lemma AppendIs(p: P.State, x: Node)
    ensures P.AppendToCurrent(p, x) ==
              if p.path == [] && !x.Element? then None
              else Some(p.(doc := DocWith(p.doc, p.path, x), path := PathWith(p.path, x)))
  {
  }

  /** kids1 and info1 differ from kids and info only at cur and by the new node n. */
  ghost predicate Grown(kids: Kids, info: Infos, kids1: Kids, info1: Infos, cur: D.Node, n: D.Node) {
    && cur in kids && n !in kids && n !in info && n in kids1
    && kids1.Keys == kids.Keys + {n} && info1.Keys == info.Keys + {n}
    && (forall m | m in kids && m != cur :: kids1[m] == kids[m])
    && (forall m | m in info :: info1[m] == info[m])
    && kids1[cur] == kids[cur] + [n]
  }

  lemma CurrentOpen(kids: Kids, info: Infos, root: D.Node, open: seq<D.Node>, doc: seq<Node>, path: seq<P.Frame>)
    requires Built(kids, info, root, open, doc, path)
    ensures var cur := Current(root, open);
            cur in kids && cur in info && cur in OpenSet(root, open) && (open != [] ==> cur != root)
            && forall i | 0 <= i < |open| - 1 :: open[i] != cur
    ensures info[Current(root, open)].kind == if path == [] then D.DocumentNode else D.ElementNode
  {
    var all := [root] + open;
    if open != [] {
      assert OpenElement(kids, info, open, |open| - 1, path[|open| - 1], OpenSet(root, open));
      assert all[0] == root && forall i | 0 <= i < |open| :: all[i + 1] == open[i];
    }
  }

  /** A finished node goes behind the children of the current node. */
  lemma AppendFinished(kids: Kids, info: Infos, kids1: Kids, info1: Infos, root: D.Node, open: seq<D.Node>,
                       doc: seq<Node>, path: seq<P.Frame>, n: D.Node, x: Node)
    requires Built(kids, info, root, open, doc, path)
    requires Grown(kids, info, kids1, info1, Current(root, open), n)
    requires IsTree(kids1, info1, n, x, OpenSet(root, open))
    ensures Built(kids1, info1, root, open, DocWith(doc, path, x), PathWith(path, x))
  {
    hide IsTree, NoDup;
    var s, cur := OpenSet(root, open), Current(root, open);
    CurrentOpen(kids, info, root, open, doc, path);
    OpenKidsKept(kids, info, kids1, info1, kids[root], doc, D.NodeAt(open, 0), s, s);
    if path == [] {
      OneMoreTree(kids1, info1, kids[root], doc, n, x, s);
    }
    forall i | 0 <= i < |open|
      ensures OpenElement(kids1, info1, open, i, PathWith(path, x)[i], s)
    {
      assert OpenElement(kids, info, open, i, path[i], s);
      OpenKidsKept(kids, info, kids1, info1, kids[open[i]], path[i].children, D.NodeAt(open, i + 1), s, s);
      if i == |open| - 1 {
        OneMoreTree(kids1, info1, kids[cur], path[i].children, n, x, s);
      }
    }
  }

  /** A new element becomes the current node. */
  lemma OpenNew(kids: Kids, info: Infos, kids1: Kids, info1: Infos, root: D.Node, open: seq<D.Node>,
                doc: seq<Node>, path: seq<P.Frame>, e: D.Node, name: Bytes)
    requires Built(kids, info, root, open, doc, path)
    requires Grown(kids, info, kids1, info1, Current(root, open), e)
    requires kids1[e] == [] && info1[e].kind == D.ElementNode && info1[e].name == name && info1[e].attrs == []
    ensures Built(kids1, info1, root, open + [e], doc, path + [P.Frame(name, [], [])])
  {
    hide IsTree;
    var s, cur, more := OpenSet(root, open), Current(root, open), open + [e];
    var s1, path1 := OpenSet(root, more), path + [P.Frame(name, [], [])];
    CurrentOpen(kids, info, root, open, doc, path);
    assert s1 == s + {e};
    assert [root] + more == [root] + open + [e];
    assert e !in [root] + open by {
      forall i | 0 <= i < |open|
        ensures open[i] != e
      {
        assert OpenElement(kids, info, open, i, path[i], s);
      }
    }
    OpenKidsKept(kids, info, kids1, info1, kids[root], doc, D.NodeAt(open, 0), s, s1);
    if open == [] {
      assert kids1[root][..|kids1[root]| - 1] == kids[root];
    }
    forall i | 0 <= i < |more|
      ensures OpenElement(kids1, info1, more, i, path1[i], s1)
    {
      if i < |open| {
        assert OpenElement(kids, info, open, i, path[i], s);
        OpenKidsKept(kids, info, kids1, info1, kids[open[i]], path[i].children, D.NodeAt(open, i + 1), s, s1);
        if i == |open| - 1 {
          assert kids1[cur][..|kids1[cur]| - 1] == kids[cur];
        }
      }
    }
  }

  /** The records after cur has got one more attribute. */
  ghost function InfosPlus(info: Infos, cur: D.Node, a: Attr): Infos
    requires cur in info
  {
    info[cur := info[cur].(attrs := info[cur].attrs + [a])]
  }

  /** The current element gets an attribute. */
  lemma AttributeAdded(kids: Kids, info: Infos, info1: Infos, root: D.Node, open: seq<D.Node>,
                       doc: seq<Node>, path: seq<P.Frame>, a: Attr)
    requires Built(kids, info, root, open, doc, path) && path != []
    requires Current(root, open) in info && info1 == InfosPlus(info, Current(root, open), a)
    ensures var k := |path| - 1;
            Built(kids, info1, root, open, doc, path[k := path[k].(attrs := path[k].attrs + [a])])
  {
    hide IsTree, NoDup;
    var s, k := OpenSet(root, open), |path| - 1;
    var path1 := path[k := path[k].(attrs := path[k].attrs + [a])];
    CurrentOpen(kids, info, root, open, doc, path);
    OpenKidsKept(kids, info, kids, info1, kids[root], doc, D.NodeAt(open, 0), s, s);
    forall i | 0 <= i < |open|
      ensures OpenElement(kids, info1, open, i, path1[i], s)
    {
      assert OpenElement(kids, info, open, i, path[i], s);
      OpenKidsKept(kids, info, kids, info1, kids[open[i]], path[i].children, D.NodeAt(open, i + 1), s, s);
    }
  }

  /** The element that is closed is a finished tree for the elements that stay open. */
  lemma ClosedTree(kids: Kids, info: Infos, root: D.Node, open: seq<D.Node>, doc: seq<Node>, path: seq<P.Frame>)
    requires Built(kids, info, root, open, doc, path) && path != []
    ensures var k := |path| - 1;
            var s1 := OpenSet(root, open[..k]);
            && IsTree(kids, info, open[k], P.Closed(path[k]), s1)
            && NoDup([root] + open[..k]) && forall m | m in s1 :: m in OpenSet(root, open)
  {
    var k := |path| - 1;
    var s, e, less, all := OpenSet(root, open), open[k], open[..k], [root] + open;
    var s1 := OpenSet(root, less);
    assert OpenElement(kids, info, open, k, path[k], s);
    assert [root] + less == all[..k + 1] && all[k + 1] == e && all[0] == root;
    assert forall i | 0 <= i < k :: less[i] == all[i + 1];
    assert e !in s1 && forall m | m in s1 :: m in s;
    OpenKidsKept(kids, info, kids, info, kids[e], path[k].children, null, s, s1);
  }

  /** An element that stays open: the innermost one gets the closed element as a finished child. */
  lemma StaysOpen(kids: Kids, info: Infos, open: seq<D.Node>, path: seq<P.Frame>, s: set<D.Node>, s1: set<D.Node>, i: nat)
    requires |open| == |path| && i + 1 < |open| && OpenElement(kids, info, open, i, path[i], s)
    requires forall m | m in s1 :: m in s
    requires IsTree(kids, info, open[|open| - 1], P.Closed(path[|open| - 1]), s1)
    ensures var k := |open| - 1;
            OpenElement(kids, info, open[..k], i, PathWith(path[..k], P.Closed(path[k]))[i], s1)
  {
    hide IsTree;
    var k, c := |open| - 1, kids[open[i]];
    OpenKidsKept(kids, info, kids, info, c, path[i].children, D.NodeAt(open, i + 1), s, s1);
    if i == k - 1 {
      OneMoreTree(kids, info, c[..|c| - 1], path[i].children, open[k], P.Closed(path[k]), s1);
      assert c == c[..|c| - 1] + [open[k]];
    }
  }

  /** The current element is finished, and its parent becomes the current node. */
  lemma Close(kids: Kids, info: Infos, root: D.Node, open: seq<D.Node>, doc: seq<Node>, path: seq<P.Frame>)
    requires Built(kids, info, root, open, doc, path) && path != []
    ensures var k := |path| - 1;
            var x := P.Closed(path[k]);
            Built(kids, info, root, open[..k], DocWith(doc, path[..k], x), PathWith(path[..k], x))
  {
    hide IsTree, NoDup, OpenElement;
    var k := |path| - 1;
    var s, less, x := OpenSet(root, open), open[..k], P.Closed(path[k]);
    var s1, path1 := OpenSet(root, less), PathWith(path[..k], x);
    ClosedTree(kids, info, root, open, doc, path);
    OpenKidsKept(kids, info, kids, info, kids[root], doc, D.NodeAt(open, 0), s, s1);
    if k == 0 {
      OneMoreTree(kids, info, kids[root][..|kids[root]| - 1], doc, open[k], x, s1);
      assert kids[root] == kids[root][..|kids[root]| - 1] + [open[k]];
    }
    forall i | 0 <= i < k
      ensures OpenElement(kids, info, less, i, path1[i], s1)
    {
      StaysOpen(kids, info, open, path, s, s1, i);
    }
  }

  // ---- the heap ----

  ghost predicate CarriesAttr(n: D.Node, a: Attr)
    reads n`nodeType, n`nodeName, n`nodeValue
  {
    n.nodeType == D.AttributeNode && n.nodeName == a.name && n.nodeValue == a.value
  }

  /** n carries this, and row is its attribute list. */
  ghost predicate Carries(n: D.Node, i: Info, row: seq<D.Node>)
    reads n`nodeType, n`nodeName, n`nodeValue, n`firstAttr
    reads (set x | x in row)`nodeType, (set x | x in row)`nodeName, (set x | x in row)`nodeValue
    reads (set x | x in row)`nextSibling, (set x | x in row)`prevSibling
  {
    && n.nodeType == i.kind && n.nodeName == i.name && n.nodeValue == i.value
    && E.Forward(n, row) && E.Backward(row) && NoDup(row)
    && |row| == |i.attrs| && forall k | 0 <= k < |row| :: CarriesAttr(row[k], i.attrs[k])
  }

  type Rows = map<D.Node, seq<D.Node>>

  ghost function AttrNodes(rows: Rows): set<D.Node> {
    set n, a | n in rows && a in rows[n] :: a
  }

  /** All nodes carry what is recorded of them and belong to the document. */
  ghost predicate Recorded(nodes: set<D.Node>, info: Infos, rows: Rows, root: D.Node)
    reads nodes`nodeType, nodes`nodeName, nodes`nodeValue, nodes`firstAttr, nodes`ownerDocument
    reads AttrNodes(rows)`nodeType, AttrNodes(rows)`nodeName, AttrNodes(rows)`nodeValue
    reads AttrNodes(rows)`nextSibling, AttrNodes(rows)`prevSibling
  {
    && info.Keys == nodes && rows.Keys == nodes
    && forall n | n in nodes :: Carries(n, info[n], rows[n]) && n.ownerDocument == root
  }

  /** The attribute lists are disjoint from each other and from the other nodes. */
  ghost predicate Apart(kids: Kids, rows: Rows) {
    && (forall n, a | n in rows && a in rows[n] :: a !in kids)
    && (forall m, n, a | m in rows && n in rows && m != n && a in rows[m] :: a !in rows[n])
  }

  lemma KidsKnown(t: D.Shape, n: D.Node, x: D.Node)
    requires t.Valid() && n in t.kids && x !in t.kids
    ensures x !in t.kids[n]
  {
    if x in t.kids[n] {
      D.KidsKnown(t, n, x);
    }
  }

  ghost function KidsWith(kids: Kids, cur: D.Node, x: D.Node): Kids
    requires cur in kids
  {
    kids[x := []][cur := kids[cur] + [x]]
  }

  ghost function InfosWith(info: Infos, x: D.Node, i: Info): Infos {
    info[x := i]
  }

  ghost function RowsWith(rows: Rows, x: D.Node): Rows {
    rows[x := []]
  }

  /** The records after the new node x has become the last child of cur. */
  lemma GrowMaps(kids: Kids, info: Infos, rows: Rows, cur: D.Node, x: D.Node, i: Info)
    requires info.Keys == kids.Keys && rows.Keys == kids.Keys && Apart(kids, rows)
    requires cur in kids && x !in kids && x !in AttrNodes(rows)
    ensures Grown(kids, info, KidsWith(kids, cur, x), InfosWith(info, x, i), cur, x)
    ensures x in KidsWith(kids, cur, x) && KidsWith(kids, cur, x)[x] == []
    ensures x in InfosWith(info, x, i) && InfosWith(info, x, i)[x] == i
    ensures Apart(KidsWith(kids, cur, x), RowsWith(rows, x)) && AttrNodes(RowsWith(rows, x)) == AttrNodes(rows)
    ensures KidsWith(kids, cur, x).Keys == kids.Keys + {x}
  {
    hide Apart, AttrNodes;
    GrowRows(kids, rows, cur, x);
  }

  lemma GrowRows(kids: Kids, rows: Rows, cur: D.Node, x: D.Node)
    requires rows.Keys == kids.Keys && Apart(kids, rows) && cur in kids && x !in kids && x !in AttrNodes(rows)
    ensures Apart(KidsWith(kids, cur, x), RowsWith(rows, x)) && AttrNodes(RowsWith(rows, x)) == AttrNodes(rows)
  {
    var rows1 := RowsWith(rows, x);
    assert forall n, a | n in rows && a in rows[n] :: n in rows1 && a in rows1[n];
    assert forall n, a | n in rows1 && a in rows1[n] :: n in rows && a in rows[n];
  }

  /** The forest without a detached node that has no children. */
  lemma Dropped(t: D.Shape, x: D.Node)
    requires t.Ranked() && x !in t.kids && D.Shape(t.kids[x := []], t.height[x := 0]).Valid()
    ensures t.Valid()
  {
    hide D.ChildLinks, NoDup, D.Shape.Ranked;
    var t1 := D.Shape(t.kids[x := []], t.height[x := 0]);
    forall n | n in t.kids
      ensures D.ChildLinks(n, t.kids[n]) && D.Upward(n, t)
    {
      assert D.ChildLinks(n, t1.kids[n]) && D.Upward(n, t1);
    }
  }

  lemma RecordsApart(kids: Kids, info: Infos, rows: Rows, root: D.Node)
    requires Apart(kids, rows) && Recorded(kids.Keys, info, rows, root)
    ensures AttrNodes(rows) !! kids.Keys && info.Keys == kids.Keys && rows.Keys == kids.Keys
    ensures forall n | n in kids :: n.ownerDocument == root
  {
    hide Carries;
  }

  ghost function RowsPlus(rows: Rows, cur: D.Node, attr: D.Node): Rows
    requires cur in rows
  {
    rows[cur := rows[cur] + [attr]]
  }

  /** The new attribute keeps the lists apart. */
  lemma AttrMaps(kids: Kids, info: Infos, rows: Rows, cur: D.Node, attr: D.Node, a: Attr)
    requires info.Keys == kids.Keys && rows.Keys == kids.Keys && Apart(kids, rows)
    requires cur in kids && attr !in kids && attr !in AttrNodes(rows)
    ensures Apart(kids, RowsPlus(rows, cur, attr)) && AttrNodes(RowsPlus(rows, cur, attr)) == AttrNodes(rows) + {attr}
  {
    RowsPlusNodes(rows, cur, attr);
    hide AttrNodes;
    var rows1 := RowsPlus(rows, cur, attr);
    forall n, x | n in rows1 && x in rows1[n]
      ensures n in rows && (x in rows[n] || (n == cur && x == attr))
    {
    }
    assert forall n | n in rows :: attr !in rows[n];
  }

  lemma RowsPlusNodes(rows: Rows, cur: D.Node, attr: D.Node)
    requires cur in rows && attr !in AttrNodes(rows)
    ensures AttrNodes(RowsPlus(rows, cur, attr)) == AttrNodes(rows) + {attr}
    ensures forall n | n in rows :: attr !in rows[n]
  {
    var rows1 := RowsPlus(rows, cur, attr);
    assert forall n, x | n in rows && x in rows[n] :: n in rows1 && x in rows1[n];
    assert forall n, x | n in rows1 && x in rows1[n] :: n in rows && (x in rows[n] || x == attr);
    assert attr in rows1[cur];
  }

  /** The attributes of another node are not in this row. */
  lemma OtherRows(kids: Kids, rows: Rows, cur: D.Node)
    requires Apart(kids, rows) && cur in rows
    ensures forall x | x in rows[cur] :: x in AttrNodes(rows) && x !in kids
    ensures forall n, x | n in rows && n != cur && x in rows[n] :: x in AttrNodes(rows) && x !in rows[cur]
  {
  }

  /** A document node alone. */
  lemma RootAlone(root: D.Node)
    requires root.parentNode == null && root.firstChild == null && root.prevSibling == null && root.nextSibling == null
    ensures D.Shape(map[root := []], map[root := 0]).Valid()
  {
    D.EmptyList(root);
  }

  lemma RootRecorded(root: D.Node)
    requires root.nodeType == D.DocumentNode && root.nodeName == [] && root.nodeValue == []
    requires root.firstAttr == null && root.ownerDocument == root
    ensures Recorded({root}, map[root := Info(D.DocumentNode, [], [], [])], map[root := []], root)
    ensures Apart(map[root := []], map[root := []]) && AttrNodes(map[root := []]) == {}
  {
    NoAttributes(root);
  }

  lemma RootBuilt(root: D.Node, i: Info)
    requires i.kind == D.DocumentNode
    ensures Built(map[root := []], map[root := i], root, [], [], [])
  {
  }

  lemma RecordedMore(nodes: set<D.Node>, info: Infos, rows: Rows, root: D.Node, x: D.Node)
    requires Recorded(nodes, info, rows, root) && x !in nodes && x.firstAttr == null && x.ownerDocument == root
    ensures Recorded(nodes + {x}, InfosWith(info, x, Info(x.nodeType, x.nodeName, x.nodeValue, [])), RowsWith(rows, x), root)
  {
    NoAttributes(x);
    hide Carries;
  }

  lemma KidsInside(t: D.Shape, n: D.Node)
    requires t.Ranked() && n in t.kids
    ensures forall x | x in t.kids[n] :: x in t.kids
  {
  }

  lemma NoAttributes(x: D.Node)
    requires x.firstAttr == null
    ensures Carries(x, Info(x.nodeType, x.nodeName, x.nodeValue, []), [])
  {
  }

  class Builder {
    var gRootDoc: D.Node
    var currentNodePtr: D.Node
    ghost var t: D.Shape
    ghost var info: Infos
    ghost var rows: Rows
    ghost var open: seq<D.Node>
    ghost var nodes: set<D.Node>  // all nodes, attributes included

    ghost function Footprint(): set<D.Node>
      reads `t, `rows
    {
      t.kids.Keys + AttrNodes(rows)
    }

    /** The nodes in the heap are those of the forest and carry what is recorded of them. */
    ghost predicate HeapOk()
      reads `t, `info, `rows, `gRootDoc
      reads t.kids.Keys`firstChild, t.kids.Keys`parentNode, t.kids.Keys`prevSibling, t.kids.Keys`nextSibling
      reads t.kids.Keys`nodeType, t.kids.Keys`nodeName, t.kids.Keys`nodeValue, t.kids.Keys`firstAttr
      reads t.kids.Keys`ownerDocument, AttrNodes(rows)`nodeType, AttrNodes(rows)`nodeName, AttrNodes(rows)`nodeValue
      reads AttrNodes(rows)`nextSibling, AttrNodes(rows)`prevSibling
    {
      && t.Valid() && Apart(t.kids, rows) && Recorded(t.kids.Keys, info, rows, gRootDoc)
      && gRootDoc in t.kids
    }

    /** The linked tree is the document so far, with the open elements on the parent chain of currentNodePtr. */
    ghost predicate Valid(doc: seq<Node>, path: seq<P.Frame>)
      reads `t, `info, `rows, `gRootDoc, `currentNodePtr, `open, `nodes
      reads t.kids.Keys`firstChild, t.kids.Keys`parentNode, t.kids.Keys`prevSibling, t.kids.Keys`nextSibling
      reads t.kids.Keys`nodeType, t.kids.Keys`nodeName, t.kids.Keys`nodeValue, t.kids.Keys`firstAttr
      reads t.kids.Keys`ownerDocument, AttrNodes(rows)`nodeType, AttrNodes(rows)`nodeName, AttrNodes(rows)`nodeValue
      reads AttrNodes(rows)`nextSibling, AttrNodes(rows)`prevSibling
    {
      && HeapOk() && Built(t.kids, info, gRootDoc, open, doc, path) && currentNodePtr == Current(gRootDoc, open)
      && nodes == Footprint()
    }

    /** ixmlDocument_createDocumentEx */
    constructor ()
      ensures Valid([], []) && fresh(nodes)
    {
      hide Built, D.Shape.Valid, Apart, Recorded, AttrNodes;
      var root := new D.Node(D.DocumentNode, [], [], null);
      gRootDoc, currentNodePtr := root, root;
      t := D.Shape(map[root := []], map[root := 0]);
      info := map[root := Info(D.DocumentNode, [], [], [])];
      rows := map[root := []];
      open, nodes := [], {root};
      new;
      root.ownerDocument := root;
      RootAlone(root);
      RootBuilt(root, Info(D.DocumentNode, [], [], []));
      RootRecorded(root);
    }

    /** ixmlNode_appendChild on currentNodePtr and a new node */
    method LinkLast(x: D.Node) returns (code: D.Code, ghost u: D.Shape)
      requires t.Valid() && x !in t.kids && currentNodePtr in t.kids && x.ownerDocument == currentNodePtr.ownerDocument
      requires x.parentNode == null && x.firstChild == null && x.prevSibling == null && x.nextSibling == null
      modifies x`firstChild, x`parentNode, x`prevSibling, x`nextSibling, x`ownerDocument
      modifies t.kids.Keys`firstChild, t.kids.Keys`parentNode, t.kids.Keys`prevSibling, t.kids.Keys`nextSibling
      ensures (code == D.Success) == D.AllowedTypes(currentNodePtr.nodeType, x.nodeType)
      ensures code == D.Success ==>
                && u.Valid() && u.kids == KidsWith(t.kids, currentNodePtr, x)
                && x.ownerDocument == currentNodePtr.ownerDocument
      ensures code != D.Success ==> t.Valid()
    {
      hide D.Linked, NoDup, D.AllowedTypes, D.ChildLinks, D.Upward, D.Refused, D.Torn, D.Placed;
      D.NewNode(t, x);
      ghost var t1 := D.Shape(t.kids[x := []], t.height[x := 0]);
      D.LeafNotRefused(t1, x, currentNodePtr);
      KidsKnown(t, currentNodePtr, x);
      D.WithoutNothing(t1.kids[currentNodePtr], x);
      code, u := D.AppendChild(currentNodePtr, x, t1);
      if code != D.Success {
        Dropped(t, x);
      }
    }

    /** The same, with what the nodes carry. */
    method LinkRecorded(x: D.Node) returns (code: D.Code, ghost u: D.Shape)
      requires t.Valid() && x !in t.kids && currentNodePtr in t.kids && x.ownerDocument == currentNodePtr.ownerDocument
      requires x.parentNode == null && x.firstChild == null && x.prevSibling == null && x.nextSibling == null
      requires Recorded(t.kids.Keys, info, rows, gRootDoc) && AttrNodes(rows) !! t.kids.Keys && x !in AttrNodes(rows)
      modifies x`firstChild, x`parentNode, x`prevSibling, x`nextSibling, x`ownerDocument
      modifies t.kids.Keys`firstChild, t.kids.Keys`parentNode, t.kids.Keys`prevSibling, t.kids.Keys`nextSibling
      ensures (code == D.Success) == D.AllowedTypes(currentNodePtr.nodeType, x.nodeType)
      ensures code == D.Success ==>
                && u.Valid() && u.kids == KidsWith(t.kids, currentNodePtr, x)
                && x.ownerDocument == currentNodePtr.ownerDocument
      ensures code != D.Success ==> t.Valid()
      ensures Recorded(t.kids.Keys, info, rows, gRootDoc)
    {
      hide D.Shape.Valid, D.AllowedTypes, KidsWith, Carries;
      code, u := LinkLast(x);
      forall n | n in t.kids
        ensures Carries(n, info[n], rows[n]) && n.ownerDocument == gRootDoc
      {
        assert old(Carries(n, info[n], rows[n]));
      }
    }

    /** The records follow the links. */
    ghost method Record(x: D.Node, u: D.Shape)
      requires u.Valid() && currentNodePtr in t.kids && u.kids == KidsWith(t.kids, currentNodePtr, x)
      requires Apart(t.kids, rows) && Recorded(t.kids.Keys, info, rows, gRootDoc) && gRootDoc in t.kids
      requires x !in Footprint() && x.firstAttr == null && x.ownerDocument == gRootDoc
      modifies `t, `info, `rows
      ensures HeapOk() && Grown(old(t.kids), old(info), t.kids, info, currentNodePtr, x) && t.kids[x] == []
      ensures info[x] == Info(x.nodeType, x.nodeName, x.nodeValue, []) && Footprint() == old(Footprint()) + {x}
    {
      hide D.Shape.Valid, Apart, Grown, AttrNodes, Recorded, KidsWith, InfosWith, RowsWith;
      var i := Info(x.nodeType, x.nodeName, x.nodeValue, []);
      RecordsApart(t.kids, info, rows, gRootDoc);
      GrowMaps(t.kids, info, rows, currentNodePtr, x, i);
      RecordedMore(t.kids.Keys, info, rows, gRootDoc, x);
      t, info, rows := u, InfosWith(info, x, i), RowsWith(rows, x);
    }

    /** A new node becomes the last child of the current node, if its type is allowed there. */
    method Append(x: D.Node) returns (ok: bool)
      requires HeapOk() && currentNodePtr in t.kids
      requires x !in Footprint() && x.ownerDocument == gRootDoc && x.firstAttr == null
      requires x.parentNode == null && x.firstChild == null && x.prevSibling == null && x.nextSibling == null
      modifies `t, `info, `rows, x`firstChild, x`parentNode, x`prevSibling, x`nextSibling, x`ownerDocument
      modifies t.kids.Keys`firstChild, t.kids.Keys`parentNode, t.kids.Keys`prevSibling, t.kids.Keys`nextSibling
      ensures HeapOk() && ok == D.AllowedTypes(currentNodePtr.nodeType, x.nodeType)
      ensures !ok ==> t == old(t) && info == old(info) && rows == old(rows)
      ensures ok ==>
                && Grown(old(t.kids), old(info), t.kids, info, currentNodePtr, x) && t.kids[x] == []
                && info[x] == Info(x.nodeType, x.nodeName, x.nodeValue, []) && Footprint() == old(Footprint()) + {x}
    {
      hide D.Shape.Valid, D.AllowedTypes, Apart, Grown, AttrNodes, Recorded, KidsWith;
      RecordsApart(t.kids, info, rows, gRootDoc);
      var code;
      ghost var u;
      code, u := LinkRecorded(x);
      ok := code == D.Success;
      if ok {
        Record(x, u);
      }
    }

    lemma NodesAllocated()
      ensures forall o | o in AttrNodes(rows) :: allocated(o)
      ensures forall o | o in t.kids.Keys :: allocated(o)
    {
    }

    /** ixmlDocument_createElementEx and its kin: a new node, not yet in the tree. */
    method NewNode(kind: D.NodeType, name: Bytes, value: Bytes) returns (x: D.Node)
      requires HeapOk()
      ensures HeapOk() && fresh(x) && x !in Footprint()
      ensures x.nodeType == kind && x.nodeName == name && x.nodeValue == value && x.ownerDocument == gRootDoc
      ensures x.parentNode == null && x.firstChild == null && x.prevSibling == null && x.nextSibling == null
      ensures x.firstAttr == null && x.ownerElement == null
    {
      hide AttrNodes, D.Shape.Valid, Recorded, Apart;
      NodesAllocated();
      x := new D.Node(kind, name, value, gRootDoc);
    }

    /** A new node below the current one, if its type is allowed there. */
    method NewChild(kind: D.NodeType, name: Bytes, value: Bytes) returns (x: D.Node, ok: bool)
      requires HeapOk() && currentNodePtr in t.kids
      modifies `t, `info, `rows
      modifies t.kids.Keys`firstChild, t.kids.Keys`parentNode, t.kids.Keys`prevSibling, t.kids.Keys`nextSibling
      ensures HeapOk() && fresh(x) && ok == D.AllowedTypes(currentNodePtr.nodeType, kind)
      ensures !ok ==> t == old(t) && info == old(info) && rows == old(rows)
      ensures ok ==>
                && Grown(old(t.kids), old(info), t.kids, info, currentNodePtr, x) && t.kids[x] == []
                && info[x] == Info(kind, name, value, []) && Footprint() == old(Footprint()) + {x}
    {
      hide HeapOk, Grown, Footprint;
      x := NewNode(kind, name, value);
      ok := Append(x);
    }

    /** Parser_pushElement and its neighbours: a new element becomes the current node. */
    method OpenElement(name: Bytes, ghost doc: seq<Node>, ghost path: seq<P.Frame>)
      requires Valid(doc, path)
      modifies this, t.kids.Keys`firstChild, t.kids.Keys`parentNode, t.kids.Keys`prevSibling, t.kids.Keys`nextSibling
      ensures Valid(doc, path + [P.Frame(name, [], [])]) && gRootDoc == old(gRootDoc)
      ensures fresh(nodes - old(nodes))
    {
      hide HeapOk, Built, Grown, Footprint, OpenSet, Current;
      CurrentOpen(t.kids, info, gRootDoc, open, doc, path);
      CurrentKind(doc, path);
      var e, ok := NewChild(D.ElementNode, name, []);
      OpenNew(old(t.kids), old(info), t.kids, info, gRootDoc, open, doc, path, e, name);
      CurrentOf(gRootDoc, open, e);
      open := open + [e];
      currentNodePtr := e;
      nodes := nodes + {e};
      assert HeapOk();
    }

    lemma CurrentCarries(doc: seq<Node>, path: seq<P.Frame>)
      requires Valid(doc, path) && path != []
      ensures currentNodePtr in info && currentNodePtr in rows
      ensures info[currentNodePtr].attrs == path[|path| - 1].attrs
      ensures Carries(currentNodePtr, info[currentNodePtr], rows[currentNodePtr])
    {
      hide Carries, D.Shape.Valid, Apart;
      CurrentOpen(t.kids, info, gRootDoc, open, doc, path);
      CurrentFrame(t.kids, info, gRootDoc, open, doc, path);
    }

    lemma CurrentName(doc: seq<Node>, path: seq<P.Frame>)
      requires Valid(doc, path) && path != []
      ensures currentNodePtr.nodeName == path[|path| - 1].name
    {
      hide D.Shape.Valid;
      CurrentOpen(t.kids, info, gRootDoc, open, doc, path);
      CurrentFrame(t.kids, info, gRootDoc, open, doc, path);
      assert Carries(currentNodePtr, info[currentNodePtr], rows[currentNodePtr]);
    }

    lemma CurrentInside(doc: seq<Node>, path: seq<P.Frame>)
      requires Valid(doc, path)
      ensures currentNodePtr in t.kids && AttrNodes(rows) <= nodes && t.kids.Keys <= nodes
    {
      CurrentOpen(t.kids, info, gRootDoc, open, doc, path);
    }

    lemma CurrentKind(doc: seq<Node>, path: seq<P.Frame>)
      requires Valid(doc, path)
      ensures currentNodePtr.nodeType == if path == [] then D.DocumentNode else D.ElementNode
    {
      hide D.Shape.Valid;
      CurrentOpen(t.kids, info, gRootDoc, open, doc, path);
    }

    /** A text or CDATA node goes below the current node; not below the document. */
    method AppendLeaf(kind: D.NodeType, value: Bytes, ghost doc: seq<Node>, ghost path: seq<P.Frame>) returns (ok: bool)
      requires Valid(doc, path) && (kind == D.TextNode || kind == D.CDataSectionNode)
      modifies `t, `info, `rows, `nodes
      modifies t.kids.Keys`firstChild, t.kids.Keys`parentNode, t.kids.Keys`prevSibling, t.kids.Keys`nextSibling
      ensures ok == (path != [])
      ensures Valid(doc, if ok then PathWith(path, Leaf(kind, value)) else path)
      ensures fresh(nodes - old(nodes))
    {
      hide HeapOk, Built, Grown, Footprint;
      CurrentOpen(t.kids, info, gRootDoc, open, doc, path);
      CurrentKind(doc, path);
      var x;
      x, ok := NewChild(kind, [], value);
      if ok {
        LeafTree(t.kids, info, old(t.kids), old(info), gRootDoc, open, doc, path, x, Leaf(kind, value));
        AppendFinished(old(t.kids), old(info), t.kids, info, gRootDoc, open, doc, path, x, Leaf(kind, value));
        nodes := nodes + {x};
      }
    }

    /** isDuplicateAttribute */
    method IsDuplicateAttribute(name: Bytes, ghost doc: seq<Node>, ghost path: seq<P.Frame>) returns (duplicate: bool)
      requires Valid(doc, path) && path != []
      ensures duplicate == P.HasAttr(path[|path| - 1].attrs, name)
    {
      hide Valid, P.HasAttr;
      CurrentCarries(doc, path);
      ghost var row := rows[currentNodePtr];
      var attrNode := E.FindAttribute(currentNodePtr, name, row);
      duplicate := attrNode != null;
      PlaceIsAttr(row, path[|path| - 1].attrs, name);
    }

    /** Parser_processAttributeName for a name that the current element does not have yet. */
    method AddAttribute(name: Bytes, value: Bytes, ghost doc: seq<Node>, ghost path: seq<P.Frame>)
      requires Valid(doc, path) && path != [] && !P.HasAttr(path[|path| - 1].attrs, name)
      modifies `t, `info, `rows, `nodes
      modifies currentNodePtr`firstAttr, AttrNodes(rows)`nextSibling, AttrNodes(rows)`prevSibling
      ensures var k := |path| - 1;
              Valid(doc, path[k := path[k].(attrs := path[k].attrs + [Attr(name, value)])])
      ensures fresh(nodes - old(nodes))
    {
      hide HeapOk, Built, Footprint;
      CurrentOpen(t.kids, info, gRootDoc, open, doc, path);
      CurrentFrame(t.kids, info, gRootDoc, open, doc, path);
      var attr := NewNode(D.AttributeNode, name, value);
      LinkAttribute(attr, Attr(name, value));
      AttributeAdded(t.kids, old(info), info, gRootDoc, open, doc, path, Attr(name, value));
      nodes := nodes + {attr};
    }

    /** ixmlElement_setAttributeNode on currentNodePtr and a new attribute */
    method LinkAttribute(attr: D.Node, ghost a: Attr)
      requires HeapOk() && currentNodePtr in t.kids && attr !in Footprint() && CarriesAttr(attr, a)
      requires attr.ownerDocument == gRootDoc && attr.ownerElement == null
      requires attr.prevSibling == null && attr.nextSibling == null
      requires !P.HasAttr(info[currentNodePtr].attrs, a.name)
      modifies `info, `rows, attr, currentNodePtr`firstAttr, AttrNodes(rows)`nextSibling, AttrNodes(rows)`prevSibling
      ensures HeapOk() && currentNodePtr in old(info)
      ensures info == InfosPlus(old(info), currentNodePtr, a)
      ensures Footprint() == old(Footprint()) + {attr}
    {
      hide D.Shape.Valid, Apart, Recorded, AttrNodes, RowsPlus, InfosPlus;
      RecordsApart(t.kids, info, rows, gRootDoc);
      AttrMaps(t.kids, info, rows, currentNodePtr, attr, a);
      LinkApart(attr, a);
      info, rows := InfosPlus(info, currentNodePtr, a), RowsPlus(rows, currentNodePtr, attr);
    }

    /** The same, with the tree, whose links are other ones. */
    method LinkApart(attr: D.Node, ghost a: Attr)
      requires t.Valid() && Apart(t.kids, rows) && Recorded(t.kids.Keys, info, rows, gRootDoc)
      requires AttrNodes(rows) !! t.kids.Keys
      requires currentNodePtr in t.kids && currentNodePtr in info && currentNodePtr in rows
      requires attr !in t.kids && attr !in AttrNodes(rows) && CarriesAttr(attr, a)
      requires attr.ownerDocument == gRootDoc && attr.ownerElement == null
      requires attr.prevSibling == null && attr.nextSibling == null
      requires !P.HasAttr(info[currentNodePtr].attrs, a.name)
      modifies attr`ownerElement, attr`prevSibling, attr`nextSibling, currentNodePtr`firstAttr
      modifies AttrNodes(rows)`nextSibling, AttrNodes(rows)`prevSibling
      ensures t.Valid()
      ensures Recorded(t.kids.Keys, InfosPlus(info, currentNodePtr, a), RowsPlus(rows, currentNodePtr, attr), gRootDoc)
    {
      hide P.HasAttr, Recorded, Apart, InfosPlus, RowsPlus, AttrNodes, D.ChildLinks, D.Upward, D.Shape.Ranked;
      LinkCarried(attr, a);
      forall n | n in t.kids
        ensures D.ChildLinks(n, t.kids[n]) && D.Upward(n, t)
      {
        assert old(D.ChildLinks(n, t.kids[n])) && old(D.Upward(n, t));
        KidsInside(t, n);
      }
    }

    /** The links, and what the nodes carry then. */
    method LinkCarried(attr: D.Node, ghost a: Attr)
      requires Apart(t.kids, rows) && Recorded(t.kids.Keys, info, rows, gRootDoc)
      requires currentNodePtr in t.kids && currentNodePtr in info && currentNodePtr in rows
      requires attr !in t.kids && attr !in AttrNodes(rows) && CarriesAttr(attr, a)
      requires attr.ownerDocument == gRootDoc && attr.ownerElement == null
      requires attr.prevSibling == null && attr.nextSibling == null
      requires !P.HasAttr(info[currentNodePtr].attrs, a.name)
      modifies attr`ownerElement, attr`prevSibling, attr`nextSibling, currentNodePtr`firstAttr
      modifies AttrNodes(rows)`nextSibling, AttrNodes(rows)`prevSibling
      ensures Recorded(t.kids.Keys, InfosPlus(info, currentNodePtr, a), RowsPlus(rows, currentNodePtr, attr), gRootDoc)
    {
      hide P.HasAttr, Carries, Apart, AttrNodes;
      LinkOthers(attr, a);
    }

    method LinkOthers(attr: D.Node, ghost a: Attr)
      requires Apart(t.kids, rows) && Recorded(t.kids.Keys, info, rows, gRootDoc)
      requires currentNodePtr in t.kids && currentNodePtr in info && currentNodePtr in rows
      requires attr !in t.kids && attr !in AttrNodes(rows) && CarriesAttr(attr, a)
      requires attr.ownerDocument == gRootDoc && attr.ownerElement == null
      requires attr.prevSibling == null && attr.nextSibling == null
      requires !P.HasAttr(info[currentNodePtr].attrs, a.name)
      modifies attr`ownerElement, attr`prevSibling, attr`nextSibling, currentNodePtr`firstAttr
      modifies AttrNodes(rows)`nextSibling, AttrNodes(rows)`prevSibling
      ensures var i := info[currentNodePtr];
              Carries(currentNodePtr, i.(attrs := i.attrs + [a]), rows[currentNodePtr] + [attr])
      ensures forall n | n in t.kids && n != currentNodePtr :: Carries(n, info[n], rows[n])
    {
      hide P.HasAttr, Carries;
      ghost var cur, row, i := currentNodePtr, rows[currentNodePtr], info[currentNodePtr];
      assert Carries(cur, i, row);
      OtherRows(t.kids, rows, cur);
      hide AttrNodes, Apart;
      LinkOne(attr, a, row, i);
      forall n | n in t.kids && n != cur
        ensures Carries(n, info[n], rows[n])
      {
        assert old(Carries(n, info[n], rows[n]));
      }
    }

    method LinkOne(attr: D.Node, ghost a: Attr, ghost row: seq<D.Node>, ghost i: Info)
      requires Carries(currentNodePtr, i, row) && currentNodePtr !in row && attr !in row && attr != currentNodePtr
      requires CarriesAttr(attr, a) && attr.ownerDocument == currentNodePtr.ownerDocument && attr.ownerElement == null
      requires attr.prevSibling == null && attr.nextSibling == null && !P.HasAttr(i.attrs, a.name)
      modifies attr`ownerElement, attr`prevSibling, attr`nextSibling, currentNodePtr`firstAttr
      modifies (set x | x in row)`nextSibling, (set x | x in row)`prevSibling
      ensures Carries(currentNodePtr, i.(attrs := i.attrs + [a]), row + [attr])
    {
      hide P.HasAttr;
      PlaceIsAttr(row, i.attrs, a.name);
      var code, rtAttr;
      ghost var now;
      code, rtAttr, now := E.SetAttributeNode(currentNodePtr, attr, row);
    }

    /** The end of Parser_eTagVerification: currentNodePtr = currentNodePtr->parentNode */
    method CloseElement(ghost doc: seq<Node>, ghost path: seq<P.Frame>)
      requires Valid(doc, path) && path != []
      modifies `currentNodePtr, `open
      ensures var k := |path| - 1;
              var x := P.Closed(path[k]);
              Valid(DocWith(doc, path[..k], x), PathWith(path[..k], x))
    {
      hide HeapOk, Built;
      ParentIsOpen(doc, path);
      currentNodePtr := currentNodePtr.parentNode;
      Close(t.kids, info, gRootDoc, open, doc, path);
      open := open[..|open| - 1];
    }

    lemma ParentIsOpen(doc: seq<Node>, path: seq<P.Frame>)
      requires Valid(doc, path) && path != []
      ensures |open| == |path| && currentNodePtr.parentNode == Current(gRootDoc, open[..|open| - 1])
    {
      hide D.Shape.Valid, Recorded, Apart;
      LastOpen(t.kids, info, gRootDoc, open, doc, path);
      CurrentOpen(t.kids, info, gRootDoc, open, doc, path);
      D.KidsAreAttached(t, Current(gRootDoc, open[..|open| - 1]), currentNodePtr);
    }

    // ---- the finished tree is one the printer can walk ----

    lemma {:induction false} ShowsRowAttrs(row: seq<D.Node>, attrs: seq<Attr>, k: nat, s: set<D.Node>)
      requires |row| == |attrs| && k <= |row| && forall i | 0 <= i < |row| :: row[i] in s && CarriesAttr(row[i], attrs[i])
      requires forall i {:trigger row[i].nextSibling} | 0 <= i < |row| :: row[i].nextSibling == D.NodeAt(row, i + 1)
      ensures Printer.ShowsAttrs(D.NodeAt(row, k), attrs[k..], s)
      decreases |row| - k
    {
      if k < |row| {
        ShowsRowAttrs(row, attrs, k + 1, s);
        assert attrs[k..][1..] == attrs[k + 1..];
      }
    }

    /** The children of n from the k-th on, when they are finished trees. */
    lemma {:induction false} ShowsRow(n: D.Node, k: nat, ys: seq<Node>, s: set<D.Node>)
      requires HeapOk() && n in t.kids && k <= |t.kids[n]|
      requires AreTrees(t.kids, info, t.kids[n][k..], ys, s)
      ensures Printer.Shows(D.NodeAt(t.kids[n], k), ys, Footprint())
      decreases ys
    {
      hide D.Shape.Ranked, Apart, Built;
      var c := t.kids[n];
      if k < |c| {
        var x, y := c[k], ys[0];
        assert IsTree(t.kids, info, c[k..][0], y, s);
        assert D.ChildLinks(n, c) && D.Linked(n, c, k);
        forall i | 0 <= i < |ys| - 1
          ensures IsTree(t.kids, info, c[k + 1..][i], ys[1..][i], s)
        {
          assert c[k + 1..][i] == c[k..][i + 1] && ys[1..][i] == ys[i + 1];
        }
        ShowsRow(n, k + 1, ys[1..], s);
        assert Carries(x, info[x], rows[x]);
        if y.Element? {
          assert D.ChildLinks(x, t.kids[x]);
          assert t.kids[x][0..] == t.kids[x];
          ShowsRow(x, 0, y.children, s);
          assert forall a | a in rows[x] :: a in AttrNodes(rows);
          ShowsRowAttrs(rows[x], y.attrs, 0, Footprint());
          assert y.attrs[0..] == y.attrs;
        }
      }
    }

    /** With no element open, the document node stands for the document. */
    lemma ShowsDocument(doc: seq<Node>)
      requires Valid(doc, [])
      ensures gRootDoc.nodeType == D.DocumentNode && Printer.Shows(gRootDoc.firstChild, doc, nodes)
    {
      hide Apart;
      assert t.kids[gRootDoc][0..] == t.kids[gRootDoc];
      ShowsRow(gRootDoc, 0, doc, OpenSet(gRootDoc, open));
      assert D.ChildLinks(gRootDoc, t.kids[gRootDoc]);
      assert Carries(gRootDoc, info[gRootDoc], rows[gRootDoc]);
    }
  }

  function Leaf(kind: D.NodeType, value: Bytes): Node {
    if kind == D.TextNode then Text(value) else CData(value)
  }

  lemma LeafTree(kids: Kids, info: Infos, kids0: Kids, info0: Infos, root: D.Node, open: seq<D.Node>,
                 doc: seq<Node>, path: seq<P.Frame>, n: D.Node, x: Node)
    requires Built(kids0, info0, root, open, doc, path) && Grown(kids0, info0, kids, info, Current(root, open), n)
    requires x.Text? || x.CData?
    requires info[n].kind == (if x.Text? then D.TextNode else D.CDataSectionNode) && info[n].value == x.value
    ensures IsTree(kids, info, n, x, OpenSet(root, open))
  {
    forall i | 0 <= i < |open|
      ensures open[i] in kids0
    {
      assert OpenElement(kids0, info0, open, i, path[i], OpenSet(root, open));
    }
  }

  lemma CurrentOf(root: D.Node, open: seq<D.Node>, e: D.Node)
    ensures Current(root, open + [e]) == e
  {
  }

  lemma LastOpen(kids: Kids, info: Infos, root: D.Node, open: seq<D.Node>, doc: seq<Node>, path: seq<P.Frame>)
    requires Built(kids, info, root, open, doc, path) && path != []
    ensures |open| == |path|
    ensures var p := Current(root, open[..|open| - 1]); p in kids && Current(root, open) in kids[p]
  {
    hide IsTree, NoDup;
    var k := |open| - 1;
    if k > 0 {
      assert OpenElement(kids, info, open, k - 1, path[k - 1], OpenSet(root, open));
    }
  }

  lemma CurrentFrame(kids: Kids, info: Infos, root: D.Node, open: seq<D.Node>, doc: seq<Node>, path: seq<P.Frame>)
    requires Built(kids, info, root, open, doc, path) && path != []
    ensures Current(root, open) in info && info[Current(root, open)].attrs == path[|path| - 1].attrs
    ensures info[Current(root, open)].name == path[|path| - 1].name
  {
    assert OpenElement(kids, info, open, |open| - 1, path[|open| - 1], OpenSet(root, open));
  }

  /** The search through the linked list finds a name if and only if it is among the recorded attributes. */
  lemma {:induction false} PlaceIsAttr(row: seq<D.Node>, attrs: seq<Attr>, name: Bytes)
    requires |row| == |attrs| && forall k | 0 <= k < |row| :: row[k].nodeName == attrs[k].name
    ensures E.Place(row, name) == |row| <==> !P.HasAttr(attrs, name)
  {
    if E.Place(row, name) < |row| {
      assert attrs[E.Place(row, name)].name == name;
    }
  }
}
