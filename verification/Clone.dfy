/**
 * Deep and shallow copies of tree nodes (src/ixml/node.c:853-1310).
 */
module Clone {
  import opened CStrings
  import opened Escape
  import opened XmlTree
  import opened Printer
  import D = Dom

  /** The siblings a clone has: like the printer, the recursion ends at a text or CDATA node. */
  function Cloned(ts: seq<Node>, deep: bool): seq<Node> {
    if ts == [] then []
    else if !ts[0].Element? then [ts[0]]
    else if deep then
      [Element(ts[0].name, ts[0].attrs, Cloned(ts[0].children, deep))] + Cloned(ts[1..], deep)
    else [Element(ts[0].name, ts[0].attrs, [])]
  }

  /** Text and CDATA nodes occur only as last siblings. */
  predicate TextsLast(ts: seq<Node>) {
    ts == []
    || if ts[0].Element? then TextsLast(ts[0].children) && TextsLast(ts[1..]) else ts[1..] == []
  }

  /** A deep clone is the whole tree exactly when no text or CDATA node has a following sibling. */
  lemma {:induction false} ClonedIff(ts: seq<Node>)
    ensures Cloned(ts, true) == ts <==> TextsLast(ts)
  {
    if ts != [] {
      assert ts == [ts[0]] + ts[1..];
      if ts[0].Element? {
        ClonedIff(ts[0].children);
        ClonedIff(ts[1..]);
        assert Cloned(ts, true)[1..] == Cloned(ts[1..], true);
      }
    }
  }

  /** Printing a deep clone gives the bytes of the original, mixed content included. */
  lemma {:induction false} PrintCloned(ts: seq<Node>)
    ensures PrintNodes(Cloned(ts, true)) == PrintNodes(ts)
  {
    hide EscapeText, PrintOpen, PrintNodes;
    var c := Cloned(ts, true);
    PrintUnfold(ts);
    PrintUnfold(c);
    if ts != [] && ts[0].Element? {
      PrintCloned(ts[0].children);
      PrintCloned(ts[1..]);
      assert c[1..] == Cloned(ts[1..], true);
      OpenOfClone(ts[0].name, ts[0].attrs, ts[0].children);
      SameFirst(ts[1..]);
    }
  }

  lemma SameFirst(ts: seq<Node>)
    ensures var c := Cloned(ts, true);
            (c == [] <==> ts == []) && (ts != [] ==> (c[0].Element? <==> ts[0].Element?) && (c[0].Text? <==> ts[0].Text?))
  {
  }

  lemma OpenOfClone(name: Bytes, attrs: seq<Attr>, children: seq<Node>)
    requires PrintNodes(Cloned(children, true)) == PrintNodes(children)
    ensures PrintOpen(name, attrs, Cloned(children, true)) == PrintOpen(name, attrs, children)
  {
    hide PrintNodes, PrintTagHead, Cloned;
    SameFirst(children);
  }

  // ---- the copies in the heap ----

  /** The links of one node, and its level, which keeps the rows of siblings apart. */
  datatype Links = Links(parent: D.Node?, prev: D.Node?, next: D.Node?, first: D.Node?, level: nat)

  /** The nodes have these links. */
  ghost predicate Describes(m: map<D.Node, Links>)
    reads m.Keys`parentNode, m.Keys`prevSibling, m.Keys`nextSibling, m.Keys`firstChild
  {
    forall x | x in m ::
      && x.parentNode == m[x].parent && x.prevSibling == m[x].prev
      && x.nextSibling == m[x].next && x.firstChild == m[x].first
  }

  /**
   * n, its following siblings and everything below them are linked as the tree nodes ts, also to
   * their parents and previous siblings.
   */
  ghost predicate Wired(n: D.Node?, ts: seq<Node>, parent: D.Node?, prev: D.Node?, m: map<D.Node, Links>, d: nat)
    decreases ts
  {
    if ts == [] then n == null
    else
      && n != null && n in m && m[n].level == d && m[n].parent == parent && m[n].prev == prev
      && Wired(m[n].next, ts[1..], parent, n, m, d)
      && match ts[0]
         case Element(_, _, children) => Wired(m[n].first, children, n, null, m, d + 1)
         case _ => m[n].first == null
  }

  /** The nodes of a list of attributes are linked to each other in both directions. */
  ghost predicate Listed(c: seq<D.Node>)
    reads (set x | x in c)`prevSibling, (set x | x in c)`nextSibling
  {
    forall i {:trigger c[i].nextSibling} {:trigger c[i].prevSibling} | 0 <= i < |c| ::
      c[i].nextSibling == D.NodeAt(c, i + 1) && c[i].prevSibling == D.NodeAt(c, i - 1)
  }

  lemma {:induction false} ShowsAttrsIn(n: D.Node?, attrs: seq<Attr>, s: set<D.Node>, u: set<D.Node>)
    requires ShowsAttrs(n, attrs, s) && s <= u
    ensures ShowsAttrs(n, attrs, u)
    decreases |attrs|
  {
    if attrs != [] {
      ShowsAttrsIn(n.nextSibling, attrs[1..], s, u);
    }
  }

  lemma {:induction false} ShowsIn(n: D.Node?, ts: seq<Node>, s: set<D.Node>, u: set<D.Node>)
    requires Shows(n, ts, s) && s <= u
    ensures Shows(n, ts, u)
    decreases ts
  {
    if ts != [] {
      ShowsIn(n.nextSibling, ts[1..], s, u);
      if ts[0].Element? {
        ShowsAttrsIn(n.firstAttr, ts[0].attrs, s, u);
        ShowsIn(n.firstChild, ts[0].children, s, u);
      }
    }
  }

  lemma {:induction false} WiredIn(n: D.Node?, ts: seq<Node>, parent: D.Node?, prev: D.Node?,
                                   m: map<D.Node, Links>, more: map<D.Node, Links>, d: nat)
    requires Wired(n, ts, parent, prev, m, d)
    requires forall x | x in m :: x in more && more[x] == m[x]
    ensures Wired(n, ts, parent, prev, more, d)
    decreases ts
  {
    if ts != [] {
      WiredIn(m[n].next, ts[1..], parent, n, m, more, d);
      if ts[0].Element? {
        WiredIn(m[n].first, ts[0].children, n, null, m, more, d + 1);
      }
    }
  }

  /** The nodes with the first one linked back to e. */
  ghost function WithPrev(m: map<D.Node, Links>, first: D.Node, e: D.Node): map<D.Node, Links>
    requires first in m
  {
    m[first := m[first].(prev := e)]
  }

  /** A new previous sibling for the first node of a row leaves the other nodes' links as they are. */
  lemma {:induction false} WiredBehind(n: D.Node?, ts: seq<Node>, parent: D.Node?, prev: D.Node?,
                                       m: map<D.Node, Links>, d: nat, first: D.Node, e: D.Node)
    requires Wired(n, ts, parent, prev, m, d) && first in m && m[first].prev == null
    requires m[first].level < d || (m[first].level == d && prev != null)
    ensures Wired(n, ts, parent, prev, WithPrev(m, first, e), d)
    decreases ts
  {
    if ts != [] {
      WiredBehind(m[n].next, ts[1..], parent, n, m, d, first, e);
      if ts[0].Element? {
        WiredBehind(m[n].first, ts[0].children, n, null, m, d + 1, first, e);
      }
    }
  }

  lemma WiredAfter(n: D.Node, ts: seq<Node>, parent: D.Node?, m: map<D.Node, Links>, d: nat, e: D.Node)
    requires Wired(n, ts, parent, null, m, d) && ts != []
    ensures Wired(n, ts, parent, e, WithPrev(m, n, e), d)
  {
    WiredBehind(m[n].next, ts[1..], parent, n, m, d, n, e);
    if ts[0].Element? {
      WiredBehind(m[n].first, ts[0].children, n, null, m, d + 1, n, e);
    }
  }

  /** n and its following siblings. */
  ghost function Row(n: D.Node?, ts: seq<Node>, parent: D.Node?, prev: D.Node?, m: map<D.Node, Links>, d: nat): (row: seq<D.Node>)
    requires Wired(n, ts, parent, prev, m, d)
    ensures |row| == |ts| && (row != [] ==> row[0] == n)
    ensures forall i | 0 <= i < |row| :: row[i] in m && m[row[i]].level == d && m[row[i]].parent == parent
    ensures forall i {:trigger row[i]} | 0 <= i < |row| :: m[row[i]].next == D.NodeAt(row, i + 1)
    decreases |ts|
  {
    if ts == [] then [] else [n] + Row(m[n].next, ts[1..], parent, n, m, d)
  }

  /** The nodes with a new parent for some of them. */
  ghost function WithParent(m: map<D.Node, Links>, row: seq<D.Node>, parent: D.Node?): map<D.Node, Links> {
    map x | x in m :: if x in row then m[x].(parent := parent) else m[x]
  }

  /** New parents for nodes of one row leave the rows below as they are. */
  lemma {:induction false} WiredBelow(n: D.Node?, ts: seq<Node>, parent: D.Node?, prev: D.Node?,
                                      m: map<D.Node, Links>, d: nat, row: seq<D.Node>, now: D.Node?)
    requires Wired(n, ts, parent, prev, m, d)
    requires forall x | x in row :: x in m && m[x].level < d
    ensures Wired(n, ts, parent, prev, WithParent(m, row, now), d)
    decreases ts
  {
    if ts != [] {
      WiredBelow(m[n].next, ts[1..], parent, n, m, d, row, now);
      if ts[0].Element? {
        WiredBelow(m[n].first, ts[0].children, n, null, m, d + 1, row, now);
      }
    }
  }

  /** A row in which every node has got the new parent. */
  lemma {:induction false} WiredUnder(n: D.Node?, ts: seq<Node>, parent: D.Node?, prev: D.Node?,
                                      m: map<D.Node, Links>, d: nat, row: seq<D.Node>, now: D.Node?)
    requires Wired(n, ts, parent, prev, m, d)
    requires forall x | x in row :: x in m && m[x].level == d
    requires forall x | x in Row(n, ts, parent, prev, m, d) :: x in row
    ensures Wired(n, ts, now, prev, WithParent(m, row, now), d)
    decreases ts
  {
    if ts != [] {
      var whole, rest := Row(n, ts, parent, prev, m, d), Row(m[n].next, ts[1..], parent, n, m, d);
      assert whole == [n] + rest;
      assert n in whole && forall x | x in rest :: x in whole;
      WiredUnder(m[n].next, ts[1..], parent, n, m, d, row, now);
      if ts[0].Element? {
        WiredBelow(m[n].first, ts[0].children, n, null, m, d + 1, row, now);
      }
    }
  }

  lemma OneMoreParent(m: map<D.Node, Links>, row: seq<D.Node>, k: nat, parent: D.Node?)
    requires k < |row| && row[k] in m
    ensures var w := WithParent(m, row[..k], parent);
            row[k] in w && WithParent(m, row[..k + 1], parent) == w[row[k] := w[row[k]].(parent := parent)]
            && w[row[k]].next == m[row[k]].next && WithParent(m, row[..k + 1], parent)[row[k]].next == m[row[k]].next
  {
    assert row[..k + 1] == row[..k] + [row[k]];
  }

  lemma DescribedNext(m: map<D.Node, Links>, x: D.Node)
    requires Describes(m) && x in m
    ensures x.nextSibling == m[x].next
  {
  }

  method SetParent(x: D.Node, parent: D.Node?, ghost m: map<D.Node, Links>)
    requires Describes(m) && x in m
    modifies x`parentNode
    ensures x.parentNode == parent && Describes(m[x := m[x].(parent := parent)])
  {
    x.parentNode := parent;
  }

  /** ixmlNode_setSiblingNodesParent: the parent of the first node becomes the parent of all. */
  method SetSiblingNodesParent(n: D.Node, ghost row: seq<D.Node>, ghost m: map<D.Node, Links>)
    requires row != [] && row[0] == n && forall x | x in row :: x in m
    requires forall i {:trigger row[i]} | 0 <= i < |row| :: m[row[i]].next == D.NodeAt(row, i + 1)
    requires Describes(WithParent(m, row[..1], n.parentNode))
    modifies (set x | x in row)`parentNode
    ensures Describes(WithParent(m, row, old(n.parentNode)))
  {
    hide WithParent, Describes;
    var parentNode := n.parentNode;
    ghost var k := 1;
    assert row[..1] == row[..0] + [row[0]];
    OneMoreParent(m, row, 0, parentNode);
    DescribedNext(WithParent(m, row[..1], parentNode), n);
    var nextptr := n.nextSibling;
    while nextptr != null
      invariant 1 <= k <= |row| && nextptr == D.NodeAt(row, k)
      invariant Describes(WithParent(m, row[..k], parentNode)) && n.parentNode == parentNode
      decreases |row| - k
    {
      OneMoreParent(m, row, k, parentNode);
      DescribedNext(WithParent(m, row[..k], parentNode), nextptr);
      var next := nextptr.nextSibling;
      SetParent(nextptr, parentNode, WithParent(m, row[..k], parentNode));
      k := k + 1;
      nextptr := next;
    }
    assert row[..k] == row;
  }

  /** ixmlNode_cloneNodeTreeRecursive on attribute nodes. */
  method CloneAttributes(n: D.Node?, ghost attrs: seq<Attr>, ghost s: set<D.Node>)
    returns (newNode: D.Node?, ghost row: seq<D.Node>)
    requires ShowsAttrs(n, attrs, s)
    ensures fresh(set x | x in row) && newNode == D.NodeAt(row, 0) && Listed(row)
    ensures ShowsAttrs(newNode, attrs, set x | x in row)
    decreases |attrs|
  {
    if n == null {
      return null, [];
    }
    var newAttr := new D.Node(D.AttributeNode, n.nodeName, n.nodeValue, null);
    var nextSib: D.Node?;
    ghost var rest;
    nextSib, rest := CloneAttributes(n.nextSibling, attrs[1..], s);
    row := [newAttr] + rest;
    LinkFirst(newAttr, nextSib, rest);
    ShowsAttrsIn(nextSib, attrs[1..], set x | x in rest, set x | x in row);
    newNode := newAttr;
  }

  method LinkFirst(x: D.Node, next: D.Node?, ghost rest: seq<D.Node>)
    requires Listed(rest) && next == D.NodeAt(rest, 0) && x !in rest && x.prevSibling == null
    modifies x`nextSibling, (if next == null then {} else {next})`prevSibling
    ensures Listed([x] + rest) && x.nextSibling == next
  {
    x.nextSibling := next;
    if next != null {
      next.prevSibling := x;
    }
    ghost var row := [x] + rest;
    forall i | 0 <= i < |row|
      ensures row[i].nextSibling == D.NodeAt(row, i + 1) && row[i].prevSibling == D.NodeAt(row, i - 1)
    {
      if i > 0 {
        assert old(rest[i - 1].prevSibling) == D.NodeAt(rest, i - 2);
      }
    }
  }

  /** The tree of a cloned element. */
  ghost function ClonedElement(t: Node, deep: bool): Node
    requires t.Element?
  {
    Element(t.name, t.attrs, if deep then Cloned(t.children, deep) else [])
  }

  /** ixmlNode_cloneElement, and the clone of the attributes. */
  method CloneElementNode(n: D.Node, ghost attrs: seq<Attr>, ghost s: set<D.Node>) returns (e: D.Node, ghost b: set<D.Node>)
    requires n.nodeType == D.ElementNode && ShowsAttrs(n.firstAttr, attrs, s)
    ensures fresh(e) && fresh(b) && e !in b && ShowsAttrs(e.firstAttr, attrs, b)
    ensures e.nodeType == D.ElementNode && e.nodeName == n.nodeName
    ensures e.parentNode == null && e.prevSibling == null && e.nextSibling == null && e.firstChild == null
  {
    hide ShowsAttrs, Listed;
    e := new D.Node(D.ElementNode, n.nodeName, n.nodeValue, null);
    var firstAttr;
    ghost var row;
    firstAttr, row := CloneAttributes(n.firstAttr, attrs, s);
    e.firstAttr := firstAttr;
    b := set x | x in row;
  }

  /**
   * An element node with its attributes and, in a deep clone, its children, but without siblings. The
   * nodes below it are in b, and the links of its descendants in m.
   */
  method CloneElement(n: D.Node, deep: bool, ghost ts: seq<Node>, ghost s: set<D.Node>, ghost d: nat)
    returns (e: D.Node, ghost b: set<D.Node>, ghost m: map<D.Node, Links>)
    requires ts != [] && ts[0].Element? && Shows(n, ts, s)
    ensures fresh(e) && fresh(b) && fresh(m.Keys) && e !in b && e !in m
    ensures e.nodeType == D.ElementNode && e.nodeName == ts[0].name
    ensures e.parentNode == null && e.prevSibling == null && e.nextSibling == null
    ensures ShowsAttrs(e.firstAttr, ts[0].attrs, b) && Shows(e.firstChild, ClonedElement(ts[0], deep).children, b)
    ensures Describes(m) && Wired(e.firstChild, ClonedElement(ts[0], deep).children, e, null, m, d + 1)
    ensures forall x | x in m :: m[x].level > d
    decreases ts, 0
  {
    hide Shows, ShowsAttrs, Wired, Describes, Cloned, WithParent;
    ghost var t := ts[0];
    assert ts == [t] + ts[1..];
    ElementParts(n, t, ts[1..], s);
    e, b := CloneElementNode(n, t.attrs, s);
    m := map[];
    NoNodes(b, e, d + 1);
    if deep {
      ghost var bc;
      bc, m := CloneChildren(n, e, t.children, s, d);
      ShowsAttrsIn(e.firstAttr, t.attrs, b, b + bc);
      ShowsIn(e.firstChild, Cloned(t.children, deep), bc, b + bc);
      b := b + bc;
    }
  }

  /** The children of a deep clone: the first child and the parents of all. */
  method CloneChildren(n: D.Node, e: D.Node, ghost c: seq<Node>, ghost s: set<D.Node>, ghost d: nat)
    returns (ghost bc: set<D.Node>, ghost m: map<D.Node, Links>)
    requires Shows(n.firstChild, c, s)
    modifies e`firstChild
    ensures fresh(bc) && fresh(m.Keys) && Shows(e.firstChild, Cloned(c, true), bc)
    ensures Describes(m) && Wired(e.firstChild, Cloned(c, true), e, null, m, d + 1)
    ensures forall x | x in m :: m[x].level > d
    decreases c, 3
  {
    hide Shows, Wired, Describes, Cloned, WithParent;
    var child;
    child, bc, m := CloneNodeTreeRecursive(n.firstChild, true, c, s, d + 1);
    e.firstChild := child;
    FirstType(child, Cloned(c, true), bc);
    if child != null {
      m := AdoptRow(child, e, Cloned(c, true), m, d + 1);
    } else {
      NoRow(Cloned(c, true), m, d + 1, e);
    }
  }

  lemma NoNodes(s: set<D.Node>, parent: D.Node?, d: nat)
    ensures Shows(null, [], s) && Describes(map[]) && Wired(null, [], parent, null, map[], d)
  {
  }

  lemma NoRow(c: seq<Node>, m: map<D.Node, Links>, d: nat, parent: D.Node?)
    requires Wired(null, c, null, null, m, d)
    ensures Wired(null, c, parent, null, m, d)
  {
  }

  /** The cloned children get their parent. */
  method AdoptRow(child: D.Node, e: D.Node, ghost c: seq<Node>, ghost m: map<D.Node, Links>, ghost d: nat)
    returns (ghost now: map<D.Node, Links>)
    requires Describes(m) && Wired(child, c, null, null, m, d) && c != []
    modifies m.Keys`parentNode
    ensures Describes(now) && Wired(child, c, e, null, now, d)
    ensures now.Keys == m.Keys && forall x | x in m :: now[x].level == m[x].level
  {
    hide Describes, Wired;
    ghost var row := Row(child, c, null, null, m, d);
    assert row[..1] == row[..0] + [row[0]];
    OneMoreParent(m, row, 0, e);
    NoParents(m, e);
    SetParent(child, e, m);
    SetSiblingNodesParent(child, row, m);
    now := WithParent(m, row, e);
    WiredUnder(child, c, null, null, m, d, row, e);
  }

  lemma NoParents(m: map<D.Node, Links>, parent: D.Node?)
    ensures WithParent(m, [], parent) == m
  {
  }

  /** All nodes of a clone: those below e, e itself, and the following siblings sib of e and what is below them. */
  ghost function AllLinks(e: D.Node, first: D.Node?, sib: D.Node?, m: map<D.Node, Links>, ms: map<D.Node, Links>, d: nat): map<D.Node, Links>
    requires sib != null ==> sib in ms
  {
    m + (if sib == null then ms else WithPrev(ms, sib, e)) + map[e := Links(null, null, sib, first, d)]
  }

  /** The clone of the following siblings is linked behind the clone of the element. */
  method LinkNext(e: D.Node, sib: D.Node?, ghost m: map<D.Node, Links>, ghost ms: map<D.Node, Links>, ghost d: nat)
    requires e.parentNode == null && e.prevSibling == null && e !in m && e !in ms && m.Keys !! ms.Keys
    requires Describes(m) && Describes(ms) && (sib != null ==> sib in ms)
    modifies e`nextSibling, (if sib == null then {} else {sib})`prevSibling
    ensures e.nextSibling == sib && Describes(AllLinks(e, e.firstChild, sib, m, ms, d))
  {
    e.nextSibling := sib;
    if sib != null {
      sib.prevSibling := e;
    }
  }

  lemma WiredLinked(e: D.Node, first: D.Node?, sib: D.Node?, t: Node, cs: seq<Node>, m: map<D.Node, Links>, ms: map<D.Node, Links>, d: nat)
    requires t.Element? && e !in m && e !in ms && m.Keys !! ms.Keys && (sib != null ==> sib in ms)
    requires Wired(first, t.children, e, null, m, d + 1) && Wired(sib, cs, null, null, ms, d)
    ensures Wired(e, [t] + cs, null, null, AllLinks(e, first, sib, m, ms, d), d)
  {
    hide Wired;
    var all := AllLinks(e, first, sib, m, ms, d);
    WiredIn(first, t.children, e, null, m, all, d + 1);
    if sib == null {
      NoSibling(cs, ms, d, e);
      WiredIn(sib, cs, null, e, ms, all, d);
    } else {
      SomeSibling(sib, cs, ms, d);
      WiredAfter(sib, cs, null, ms, d, e);
      WiredIn(sib, cs, null, e, WithPrev(ms, sib, e), all, d);
    }
    WiredElement(e, t, cs, all, d);
  }

  lemma SomeSibling(sib: D.Node, cs: seq<Node>, ms: map<D.Node, Links>, d: nat)
    requires Wired(sib, cs, null, null, ms, d)
    ensures cs != [] && sib in ms
  {
  }

  lemma NoSibling(cs: seq<Node>, ms: map<D.Node, Links>, d: nat, e: D.Node)
    requires Wired(null, cs, null, null, ms, d)
    ensures Wired(null, cs, null, e, ms, d)
  {
  }

  lemma ShowsElement(e: D.Node, t: Node, cs: seq<Node>, s: set<D.Node>)
    requires t.Element? && e in s && e.nodeType == D.ElementNode && e.nodeName == t.name
    requires ShowsAttrs(e.firstAttr, t.attrs, s) && Shows(e.firstChild, t.children, s) && Shows(e.nextSibling, cs, s)
    ensures Shows(e, [t] + cs, s)
  {
    assert ([t] + cs)[1..] == cs;
  }

  lemma WiredElement(e: D.Node, t: Node, cs: seq<Node>, m: map<D.Node, Links>, d: nat)
    requires t.Element? && e in m && m[e].level == d && m[e].parent == null && m[e].prev == null
    requires Wired(m[e].first, t.children, e, null, m, d + 1) && Wired(m[e].next, cs, null, e, m, d)
    ensures Wired(e, [t] + cs, null, null, m, d)
  {
    assert ([t] + cs)[1..] == cs;
  }

  lemma ShowsLinked(e: D.Node, t: Node, cs: seq<Node>, b: set<D.Node>, bs: set<D.Node>)
    requires t.Element? && e.nodeType == D.ElementNode && e.nodeName == t.name
    requires ShowsAttrs(e.firstAttr, t.attrs, b) && Shows(e.firstChild, t.children, b) && Shows(e.nextSibling, cs, bs)
    ensures Shows(e, [t] + cs, {e} + b + bs)
  {
    hide Shows, ShowsAttrs;
    var r := {e} + b + bs;
    ShowsAttrsIn(e.firstAttr, t.attrs, b, r);
    ShowsIn(e.firstChild, t.children, b, r);
    ShowsIn(e.nextSibling, cs, bs, r);
    ShowsElement(e, t, cs, r);
  }

  lemma LevelsLinked(e: D.Node, first: D.Node?, sib: D.Node?, m: map<D.Node, Links>, ms: map<D.Node, Links>, d: nat)
    requires sib != null ==> sib in ms
    requires (forall x | x in m :: m[x].level > d) && forall x | x in ms :: ms[x].level >= d
    ensures var all := AllLinks(e, first, sib, m, ms, d);
            all.Keys == m.Keys + ms.Keys + {e} && forall x | x in all :: all[x].level >= d
  {
  }

  method LinkRow(e: D.Node, sib: D.Node?, ghost t: Node, ghost cs: seq<Node>, ghost b: set<D.Node>, ghost bs: set<D.Node>,
                 ghost mb: map<D.Node, Links>, ghost ms: map<D.Node, Links>, ghost d: nat)
    returns (ghost m: map<D.Node, Links>)
    requires t.Element? && e.nodeType == D.ElementNode && e.nodeName == t.name
    requires e.parentNode == null && e.prevSibling == null && e !in b && e !in bs
    requires e !in mb && e !in ms && mb.Keys !! ms.Keys && (sib != null ==> sib in ms)
    requires ShowsAttrs(e.firstAttr, t.attrs, b) && Shows(e.firstChild, t.children, b) && Shows(sib, cs, bs)
    requires Describes(mb) && Wired(e.firstChild, t.children, e, null, mb, d + 1) && forall x | x in mb :: mb[x].level > d
    requires Describes(ms) && Wired(sib, cs, null, null, ms, d) && forall x | x in ms :: ms[x].level >= d
    modifies e`nextSibling, (if sib == null then {} else {sib})`prevSibling
    ensures Shows(e, [t] + cs, {e} + b + bs)
    ensures m.Keys == mb.Keys + ms.Keys + {e} && Describes(m) && Wired(e, [t] + cs, null, null, m, d)
    ensures forall x | x in m :: m[x].level >= d
  {
    hide Shows, ShowsAttrs, Wired, Describes, AllLinks;
    LinkNext(e, sib, mb, ms, d);
    WiredLinked(e, e.firstChild, sib, t, cs, mb, ms, d);
    LevelsLinked(e, e.firstChild, sib, mb, ms, d);
    ShowsLinked(e, t, cs, b, bs);
    m := AllLinks(e, e.firstChild, sib, mb, ms, d);
  }

  /** The element case: the element and, in a deep clone, its following siblings. */
  method CloneRow(n: D.Node, deep: bool, ghost ts: seq<Node>, ghost s: set<D.Node>, ghost d: nat)
    returns (e: D.Node, ghost r: set<D.Node>, ghost m: map<D.Node, Links>)
    requires ts != [] && ts[0].Element? && Shows(n, ts, s)
    ensures fresh(r) && Shows(e, Cloned(ts, deep), r)
    ensures e in m && fresh(m.Keys) && Describes(m) && Wired(e, Cloned(ts, deep), null, null, m, d)
    ensures forall x | x in m :: m[x].level >= d
    decreases ts, 1
  {
    hide Shows, ShowsAttrs, Wired, Describes, Cloned, AllLinks;
    CloneUnfold(ts, deep);
    assert ts == [ts[0]] + ts[1..];
    ElementParts(n, ts[0], ts[1..], s);
    ghost var b, mb, bs, ms;
    e, b, mb := CloneElement(n, deep, ts, s, d);
    var sib := null;
    bs, ms := {}, map[];
    NoNodes({}, null, d);
    if deep {
      sib, bs, ms := CloneNodeTreeRecursive(n.nextSibling, deep, ts[1..], s, d);
    }
    ghost var te, cs := ClonedElement(ts[0], deep), if deep then Cloned(ts[1..], deep) else [];
    m := LinkRow(e, sib, te, cs, b, bs, mb, ms, d);
    r := {e} + b + bs;
  }

  /** ixmlNode_cloneNodeTreeRecursive on children: a node and, in a deep clone, its following siblings. */
  method CloneNodeTreeRecursive(n: D.Node?, deep: bool, ghost ts: seq<Node>, ghost s: set<D.Node>, ghost d: nat)
    returns (newNode: D.Node?, ghost r: set<D.Node>, ghost m: map<D.Node, Links>)
    requires Shows(n, ts, s)
    ensures fresh(r) && Shows(newNode, Cloned(ts, deep), r)
    ensures newNode != null ==> newNode in m
    ensures fresh(m.Keys) && Describes(m) && Wired(newNode, Cloned(ts, deep), null, null, m, d)
    ensures forall x | x in m :: m[x].level >= d
    decreases ts, 2
  {
    hide Shows, ShowsAttrs, Wired, Describes, Cloned;
    FirstType(n, ts, s);
    CloneUnfold(ts, deep);
    r, m := {}, map[];
    NoNodes({}, null, d);
    newNode := null;
    if n == null {
      return;
    }
    match n.nodeType {
      case ElementNode =>
        newNode, r, m := CloneRow(n, deep, ts, s, d);
      case TextNode =>
        newNode := CloneCharacterData(n);
        r, m := {newNode}, map[newNode := Links(null, null, null, null, d)];
        OneLeaf(newNode, ts[0], m, d);
      case CDataSectionNode =>
        newNode := CloneCharacterData(n);
        r, m := {newNode}, map[newNode := Links(null, null, null, null, d)];
        OneLeaf(newNode, ts[0], m, d);
      case _ =>
    }
  }

  lemma CloneUnfold(ts: seq<Node>, deep: bool)
    ensures Cloned(ts, deep) ==
              if ts == [] then []
              else if !ts[0].Element? then [ts[0]]
              else [ClonedElement(ts[0], deep)] + if deep then Cloned(ts[1..], deep) else []
  {
  }

  /** ixmlNode_cloneTextNode, ixmlNode_cloneCDATASect */
  method CloneCharacterData(n: D.Node) returns (newNode: D.Node)
    ensures fresh(newNode) && newNode.nodeType == n.nodeType && newNode.nodeValue == n.nodeValue
    ensures newNode.parentNode == null && newNode.prevSibling == null && newNode.nextSibling == null
    ensures newNode.firstChild == null
  {
    newNode := new D.Node(n.nodeType, n.nodeName, n.nodeValue, null);
  }

  lemma OneLeaf(n: D.Node, t: Node, m: map<D.Node, Links>, d: nat)
    requires m == map[n := Links(null, null, null, null, d)] && n.nextSibling == null
    requires n.parentNode == null && n.prevSibling == null && n.firstChild == null
    requires match t
             case Text(v) => n.nodeType == D.TextNode && n.nodeValue == v
             case CData(v) => n.nodeType == D.CDataSectionNode && n.nodeValue == v
             case Element(_, _, _) => false
    ensures Shows(n, [t], {n}) && Describes(m) && Wired(n, [t], null, null, m, d)
  {
  }

  /** A second node in a row knows the parent of the row. */
  lemma SecondKnows(n: D.Node?, ts: seq<Node>, parent: D.Node?, m: map<D.Node, Links>, d: nat)
    requires Wired(n, ts, parent, null, m, d) && Describes(m) && |ts| > 1
    ensures n != null && n.nextSibling != null && n.nextSibling != n && n.nextSibling.parentNode == parent
  {
    assert Wired(m[n].next, ts[1..], parent, n, m, d);
  }

  /** The first child of the clone of a document gets its parent; a second one does not. */
  method AdoptFirst(child: D.Node, e: D.Node, ghost c: seq<Node>, ghost m: map<D.Node, Links>) returns (ghost now: map<D.Node, Links>)
    requires Describes(m) && Wired(child, c, null, null, m, 0) && c != []
    modifies child`parentNode
    ensures |c| <= 1 ==> Describes(now) && Wired(child, c, e, null, now, 0)
    ensures |c| > 1 ==>
              && child.nextSibling != null && child.nextSibling.parentNode == null
              && forall w: map<D.Node, Links> | Describes(w) :: !Wired(child, c, e, null, w, 0)
  {
    hide Wired, Describes, WithParent;
    ghost var row := Row(child, c, null, null, m, 0);
    assert row[..1] == row[..0] + [row[0]];
    OneMoreParent(m, row, 0, e);
    NoParents(m, e);
    WiredUnder(child, c, null, null, m, 0, row, e);
    if |c| > 1 {
      SecondKnows(child, c, null, m, 0);
    }
    SetParent(child, e, m);
    now := WithParent(m, row[..1], e);
    if |c| > 1 {
      forall w: map<D.Node, Links> | Describes(w)
        ensures !Wired(child, c, e, null, w, 0)
      {
        if Wired(child, c, e, null, w, 0) {
          SecondKnows(child, c, e, w, 0);
          assert false;
        }
      }
    } else {
      assert row[..1] == row;
    }
  }

  /** The children of the clone of a document. */
  method CloneDocumentChildren(n: D.Node, e: D.Node, ghost ts: seq<Node>, ghost s: set<D.Node>)
    returns (ghost r: set<D.Node>, ghost m: map<D.Node, Links>)
    requires Shows(n.firstChild, ts, s)
    modifies e`firstChild
    ensures fresh(r) && Shows(e.firstChild, Cloned(ts, true), r)
    ensures |Cloned(ts, true)| <= 1 ==> Describes(m) && Wired(e.firstChild, Cloned(ts, true), e, null, m, 0)
    ensures |Cloned(ts, true)| > 1 ==>
              && e.firstChild != null && e.firstChild.nextSibling != null && e.firstChild.nextSibling.parentNode == null
              && forall w: map<D.Node, Links> | Describes(w) :: !Wired(e.firstChild, Cloned(ts, true), e, null, w, 0)
  {
    hide Shows, Wired, Describes, Cloned;
    var child;
    child, r, m := CloneNodeTreeRecursive(n.firstChild, true, ts, s, 0);
    ghost var c := Cloned(ts, true);
    FirstType(child, c, r);
    e.firstChild := child;
    if child == null {
      NoRow(c, m, 0, e);
    } else {
      m := AdoptFirst(child, e, c, m);
    }
  }

  /** Without text and CDATA nodes nothing is cut off. */
  lemma {:induction false} ElementsAllCloned(ts: seq<Node>)
    requires forall t | t in ts :: t.Element?
    ensures |Cloned(ts, true)| == |ts|
  {
    if ts != [] {
      assert ts == [ts[0]] + ts[1..];
      ElementsAllCloned(ts[1..]);
    }
  }

  /** The tree of the clone of a node other than an attribute: see TreeOf. */
  ghost function ClonedTree(n: D.Node, ts: seq<Node>, deep: bool): seq<Node>
    reads n
  {
    if n.nodeType == D.DocumentNode then if deep then Cloned(ts, true) else []
    else if ts == [] then []
    else if ts[0].Element? then [ClonedElement(ts[0], deep)]
    else [ts[0]]
  }

  /** The tree a node stands for: its children if it is a document node, otherwise the node itself. */
  ghost predicate TreeOf(n: D.Node, ts: seq<Node>, s: set<D.Node>)
    reads n, s`nodeType, s`nodeName, s`nodeValue, s`firstAttr, s`firstChild, s`nextSibling
  {
    if n.nodeType == D.DocumentNode then Shows(n.firstChild, ts, s)
    else ts != [] && Shows(n, ts, s)
  }

  /**
   * ixmlNode_cloneNodeTree, and ixmlNode_cloneNode on nodes that are not attributes. The clone has no
   * parent and no siblings, and a deep clone prints like the original. The descendants of an element are
   * linked in all directions. In the clone of a document only the first child gets a parent link, so the
   * links are complete exactly when there is no second child; a document of elements keeps all its children.
   */
  method CloneNodeTree(n: D.Node, deep: bool, ghost ts: seq<Node>, ghost s: set<D.Node>)
    returns (newNode: D.Node, ghost r: set<D.Node>, ghost m: map<D.Node, Links>)
    requires n.nodeType != D.AttributeNode && TreeOf(n, ts, s)
    ensures fresh(newNode) && newNode.parentNode == null && newNode.prevSibling == null && newNode.nextSibling == null
    ensures newNode.nodeType == n.nodeType && fresh(r) && TreeOf(newNode, ClonedTree(n, ts, deep), r)
    ensures deep ==> PrintedTree(newNode, ClonedTree(n, ts, deep)) == PrintedTree(n, ts)
    ensures !deep && n.nodeType.ElementNode? ==> Shows(newNode, [Element(ts[0].name, ts[0].attrs, [])], r)
    ensures n.nodeType.TextNode? || n.nodeType.CDataSectionNode? ==> Shows(newNode, [ts[0]], r)
    ensures n.nodeType.ElementNode? ==>
              Describes(m) && Wired(newNode.firstChild, ClonedElement(ts[0], deep).children, newNode, null, m, 1)
    ensures n.nodeType.DocumentNode? && deep && |Cloned(ts, true)| <= 1 ==>
              Describes(m) && Wired(newNode.firstChild, Cloned(ts, true), newNode, null, m, 0)
    ensures n.nodeType.DocumentNode? && deep && |Cloned(ts, true)| > 1 ==>
              && newNode.firstChild != null && newNode.firstChild.nextSibling != null
              && newNode.firstChild.nextSibling.parentNode == null
    ensures n.nodeType.DocumentNode? && deep ==>
              (|Cloned(ts, true)| <= 1 <==>
               exists w: map<D.Node, Links> :: Describes(w) && Wired(newNode.firstChild, Cloned(ts, true), newNode, null, w, 0))
    ensures (forall t | t in ts :: t.Element?) ==> |Cloned(ts, true)| == |ts|
  {
    hide Shows, Wired, Describes, Cloned, PrintNodes, WithParent;
    if forall t | t in ts :: t.Element? {
      ElementsAllCloned(ts);
    }
    m := map[];
    if n.nodeType == D.DocumentNode {
      newNode := new D.Node(D.DocumentNode, n.nodeName, [], null);
      r := {};
      NoNodes({}, null, 0);
      if deep {
        r, m := CloneDocumentChildren(n, newNode, ts, s);
        PrintCloned(ts);
      }
    } else if n.nodeType == D.ElementNode {
      FirstType(n, ts, s);
      newNode, r, m := CloneElement(n, deep, ts, s, 0);
      NoNodes({}, null, 0);
      ShowsLinked(newNode, ClonedElement(ts[0], deep), [], r, {});
      assert [ClonedElement(ts[0], deep)] + [] == [ClonedElement(ts[0], deep)];
      r := {newNode} + r + {};
      ClonePrintsAlike(ts[0]);
    } else {
      FirstType(n, ts, s);
      newNode := CloneCharacterData(n);
      r := {newNode};
      OneLeaf(newNode, ts[0], map[newNode := Links(null, null, null, null, 0)], 0);
    }
  }

  lemma ClonePrintsAlike(t: Node)
    requires t.Element?
    ensures PrintNodes([ClonedElement(t, true)]) == PrintNodes([t])
  {
    PrintCloned([t]);
    assert Cloned([t], true) == [ClonedElement(t, true)];
  }
}
