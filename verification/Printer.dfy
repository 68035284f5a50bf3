/**
 * The printer on the linked tree (src/ixml/ixml.c:40-260): a recursion that appends to one buffer.
 */
module Printer {
  import opened CStrings
  import opened Escape
  import opened XmlTree
  import D = Dom
  import Membuf

  /** n and the attribute nodes behind it carry the attributes, in order. */
  ghost predicate ShowsAttrs(n: D.Node?, attrs: seq<Attr>, s: set<D.Node>)
    reads s`nodeType, s`nodeName, s`nodeValue, s`nextSibling
    decreases |attrs|
  {
    if attrs == [] then n == null
    else
      && n != null && n in s && n.nodeType == D.AttributeNode
      && n.nodeName == attrs[0].name && n.nodeValue == attrs[0].value
      && ShowsAttrs(n.nextSibling, attrs[1..], s)
  }

  /** n, its following siblings and everything below them are the tree nodes ts; all of it is in s. */
  ghost predicate Shows(n: D.Node?, ts: seq<Node>, s: set<D.Node>)
    reads s`nodeType, s`nodeName, s`nodeValue, s`firstAttr, s`firstChild, s`nextSibling
    decreases ts
  {
    if ts == [] then n == null
    else
      && n != null && n in s
      && Shows(n.nextSibling, ts[1..], s)
      && match ts[0]
         case Text(v) => n.nodeType == D.TextNode && n.nodeValue == v
         case CData(v) => n.nodeType == D.CDataSectionNode && n.nodeValue == v
         case Element(name, attrs, children) =>
           && n.nodeType == D.ElementNode && n.nodeName == name
           && ShowsAttrs(n.firstAttr, attrs, s) && Shows(n.firstChild, children, s)
  }

  /** The switch of copy_with_escape. */
  method AppendEscaped(buf: Membuf.Buffer, b: Byte)
    requires buf.Valid()
    modifies buf, buf.buf
    ensures buf.Valid() && (buf.buf == old(buf.buf) || fresh(buf.buf))
    ensures buf.Contents() == old(buf.Contents()) + EscapeByte(b)
  {
    hide Membuf.Buffer.Contents;
    if b == 0x3C {
      buf.AppendStr(LT);
    } else if b == 0x3E {
      buf.AppendStr(GT);
    } else if b == 0x26 {
      buf.AppendStr(AMP);
    } else if b == 0x27 {
      buf.AppendStr(APOS);
    } else if b == 0x22 {
      buf.AppendStr(QUOT);
    } else {
      buf.Append(b);
    }
  }

  /** copy_with_escape */
  method CopyWithEscape(buf: Membuf.Buffer, p: Bytes)
    requires buf.Valid()
    modifies buf, buf.buf
    ensures buf.Valid() && (buf.buf == old(buf.buf) || fresh(buf.buf))
    ensures buf.Contents() == old(buf.Contents()) + EscapeText(p)
  {
    hide Membuf.Buffer.Contents, Membuf.Buffer.Valid, EscapeByte, EscapeText;
    ghost var start, done: Bytes := buf.Contents(), [];
    assert start == start + done && done + EscapeText(p) == EscapeText(p);
    for i := 0 to |p|
      invariant buf.Valid() && (buf.buf == old(buf.buf) || fresh(buf.buf))
      invariant EscapeText(p) == done + EscapeText(p[i..])
      invariant buf.Contents() == start + done
    {
      AppendEscaped(buf, p[i]);
      ghost var e, rest := EscapeByte(p[i]), EscapeText(p[i + 1..]);
      EscapeNext(p, i);
      assert done + (e + rest) == (done + e) + rest && start + done + e == start + (done + e);
      done := done + e;
    }
    EscapeEnd(p);
    assert done + [] == done;
  }

  lemma EscapeNext(p: Bytes, i: nat)
    requires i < |p|
    ensures EscapeText(p[i..]) == EscapeByte(p[i]) + EscapeText(p[i + 1..])
  {
    assert p[i..][1..] == p[i + 1..];
  }

  lemma EscapeEnd(p: Bytes)
    ensures EscapeText(p[|p|..]) == []
  {
  }

  /** Writing x behind what has been written. */
  lemma Wrote(start: Bytes, out: Bytes, x: Bytes) returns (now: Bytes)
    ensures now == out + x && start + out + x == start + now && start + [] == start && [] + x == x
  {
    now := out + x;
  }

  lemma AttrsParts(n: D.Node?, attrs: seq<Attr>, s: set<D.Node>)
    requires ShowsAttrs(n, attrs, s) && attrs != []
    ensures n != null && n in s && n.nodeType == D.AttributeNode
    ensures n.nodeName == attrs[0].name && n.nodeValue == attrs[0].value
    ensures ShowsAttrs(n.nextSibling, attrs[1..], s) && (n.nextSibling == null <==> |attrs| == 1)
  {
  }

  lemma ElementParts(n: D.Node?, t: Node, rest: seq<Node>, s: set<D.Node>)
    requires Shows(n, [t] + rest, s) && t.Element?
    ensures n != null && n in s && n.nodeType == D.ElementNode && n.nodeName == t.name
    ensures ShowsAttrs(n.firstAttr, t.attrs, s) && Shows(n.firstChild, t.children, s) && Shows(n.nextSibling, rest, s)
    ensures n.firstAttr == null <==> t.attrs == []
  {
    assert ([t] + rest)[1..] == rest;
  }

  lemma FirstType(n: D.Node?, ts: seq<Node>, s: set<D.Node>)
    requires Shows(n, ts, s)
    ensures n == null <==> ts == []
    ensures n != null ==> n in s
    ensures n != null ==> (n.nodeType == D.ElementNode <==> ts[0].Element?)
    ensures n != null ==> (n.nodeType == D.TextNode <==> ts[0].Text?)
    ensures n != null ==> (n.nodeType == D.CDataSectionNode <==> ts[0].CData?)
    ensures n != null && !ts[0].Element? ==> n.nodeValue == ts[0].value
  {
  }

  /** The bytes of one attribute. */
  ghost function PrintAttr(a: Attr): Bytes {
    a.name + [0x3D, 0x22] + EscapeText(a.value) + [0x22]
  }

  lemma AttrIs(a: Attr)
    ensures PrintAttr(a) == a.name + [0x3D, 0x22] + EscapeText(a.value) + [0x22]
  {
  }

  /** One attribute node; both printers share it. */
  method PrintAttribute(n: D.Node, buf: Membuf.Buffer)
    requires buf.Valid()
    modifies buf, buf.buf
    ensures buf.Valid() && (buf.buf == old(buf.buf) || fresh(buf.buf))
    ensures buf.Contents() == old(buf.Contents()) + PrintAttr(Attr(n.nodeName, n.nodeValue))
  {
    hide Membuf.Buffer.Contents, Membuf.Buffer.Valid, EscapeText;
    ghost var start, out: Bytes := buf.Contents(), [];
    buf.AppendStr(n.nodeName);
    out := Wrote(start, out, n.nodeName);
    buf.AppendStr([0x3D, 0x22]);
    out := Wrote(start, out, [0x3D, 0x22]);
    CopyWithEscape(buf, n.nodeValue);
    out := Wrote(start, out, EscapeText(n.nodeValue));
    buf.AppendStr([0x22]);
    out := Wrote(start, out, [0x22]);
  }

  /** ixmlPrintDomTreeRecursive on attribute nodes: the attribute and those behind it. */
  method PrintAttributes(n: D.Node, buf: Membuf.Buffer, ghost attrs: seq<Attr>, ghost s: set<D.Node>)
    requires buf.Valid() && attrs != [] && ShowsAttrs(n, attrs, s)
    modifies buf, buf.buf
    ensures buf.Valid() && (buf.buf == old(buf.buf) || fresh(buf.buf))
    ensures buf.Contents() == old(buf.Contents()) + PrintAttrs(attrs)
    decreases |attrs|
  {
    hide Membuf.Buffer.Contents, Membuf.Buffer.Valid, PrintAttr, ShowsAttrs, PrintAttrs;
    AttrsParts(n, attrs, s);
    AttrsUnfold(attrs);
    ghost var start, out: Bytes := buf.Contents(), [];
    PrintAttribute(n, buf);
    out := Wrote(start, out, PrintAttr(attrs[0]));
    if n.nextSibling != null {
      buf.AppendStr([0x20]);
      out := Wrote(start, out, [0x20]);
      PrintAttributes(n.nextSibling, buf, attrs[1..], s);
      out := Wrote(start, out, PrintAttrs(attrs[1..]));
    }
  }

  lemma AttrsUnfold(attrs: seq<Attr>)
    requires attrs != []
    ensures PrintAttrs(attrs) ==
              if |attrs| > 1 then PrintAttr(attrs[0]) + [0x20] + PrintAttrs(attrs[1..]) else PrintAttr(attrs[0])
  {
    hide EscapeText;
    var own := PrintAttr(attrs[0]);
    if |attrs| > 1 {
      Associates(own, [0x20], PrintAttrs(attrs[1..]));
    } else {
      assert own + [] == own;
    }
  }

  lemma Associates(a: Bytes, b: Bytes, c: Bytes)
    ensures a + (b + c) == a + b + c
  {
  }

  /** The bytes of an element up to and including the name in its end tag. */
  ghost function PrintOpen(name: Bytes, attrs: seq<Attr>, children: seq<Node>): Bytes {
    PrintTagHead(name, attrs) + PrintTagEnd(children) + PrintNodes(children) + [0x3C, 0x2F] + name
  }

  /** `<`, the name and the attributes; both printers share it. */
  method PrintHead(n: D.Node, buf: Membuf.Buffer, ghost name: Bytes, ghost attrs: seq<Attr>, ghost s: set<D.Node>)
    requires buf.Valid() && n.nodeName == name && ShowsAttrs(n.firstAttr, attrs, s)
    modifies buf, buf.buf
    ensures buf.Valid() && (buf.buf == old(buf.buf) || fresh(buf.buf))
    ensures buf.Contents() == old(buf.Contents()) + PrintTagHead(name, attrs)
  {
    hide Membuf.Buffer.Contents, Membuf.Buffer.Valid, PrintAttrs;
    ghost var start, out: Bytes := buf.Contents(), [];
    buf.AppendStr([0x3C]);
    out := Wrote(start, out, [0x3C]);
    buf.AppendStr(n.nodeName);
    out := Wrote(start, out, n.nodeName);
    if n.firstAttr != null {
      buf.AppendStr([0x20]);
      PrintAttributes(n.firstAttr, buf, attrs, s);
      assert start + out + [0x20] + PrintAttrs(attrs) == start + (out + ([0x20] + PrintAttrs(attrs)));
    } else {
      assert out == out + [];
    }
  }

  /** The start tag of an element. */
  method PrintStart(n: D.Node, buf: Membuf.Buffer, ghost t: Node, ghost s: set<D.Node>)
    requires buf.Valid() && t.Element? && n.nodeName == t.name && n in s
    requires ShowsAttrs(n.firstAttr, t.attrs, s) && Shows(n.firstChild, t.children, s)
    modifies buf, buf.buf
    ensures buf.Valid() && (buf.buf == old(buf.buf) || fresh(buf.buf))
    ensures buf.Contents() == old(buf.Contents()) + (PrintTagHead(t.name, t.attrs) + PrintTagEnd(t.children))
  {
    hide Membuf.Buffer.Contents, Membuf.Buffer.Valid, PrintNodes, PrintTagHead, Shows, ShowsAttrs;
    FirstType(n.firstChild, t.children, s);
    ghost var start, out: Bytes := buf.Contents(), [];
    PrintHead(n, buf, t.name, t.attrs, s);
    out := Wrote(start, out, PrintTagHead(t.name, t.attrs));
    var child := n.firstChild;
    if child != null && child.nodeType == D.ElementNode {
      buf.AppendStr([0x3E] + CRLF);
    } else {
      buf.AppendStr([0x3E]);
    }
    out := Wrote(start, out, PrintTagEnd(t.children));
  }

  /** The element case up to the name in the end tag. */
  method PrintElement(n: D.Node, buf: Membuf.Buffer, ghost t: Node, ghost rest: seq<Node>, ghost s: set<D.Node>)
    requires buf.Valid() && t.Element? && Shows(n, [t] + rest, s)
    modifies buf, buf.buf
    ensures buf.Valid() && (buf.buf == old(buf.buf) || fresh(buf.buf))
    ensures buf.Contents() == old(buf.Contents()) + PrintOpen(t.name, t.attrs, t.children)
    decreases t, 0
  {
    hide Membuf.Buffer.Contents, Membuf.Buffer.Valid, PrintNodes, PrintTagHead, Shows, ShowsAttrs;
    ElementParts(n, t, rest, s);
    ghost var start, out: Bytes := buf.Contents(), [];
    PrintStart(n, buf, t, s);
    out := Wrote(start, out, PrintTagHead(t.name, t.attrs) + PrintTagEnd(t.children));
    PrintDomTreeRecursive(n.firstChild, buf, t.children, s);
    out := Wrote(start, out, PrintNodes(t.children));
    buf.AppendStr([0x3C, 0x2F]);
    out := Wrote(start, out, [0x3C, 0x2F]);
    buf.AppendStr(n.nodeName);
    out := Wrote(start, out, t.name);
  }

  /** What is written behind the name in an end tag. */
  ghost function PrintClose(following: seq<Node>): Bytes {
    if following != [] && following[0].Text? then [0x3E] else [0x3E] + CRLF
  }

  /** ixmlPrintDomTreeRecursive on children: a node and, unless it is text or CDATA, its following siblings. */
  method PrintDomTreeRecursive(n: D.Node?, buf: Membuf.Buffer, ghost ts: seq<Node>, ghost s: set<D.Node>)
    requires buf.Valid() && Shows(n, ts, s)
    modifies buf, buf.buf
    ensures buf.Valid() && (buf.buf == old(buf.buf) || fresh(buf.buf))
    ensures buf.Contents() == old(buf.Contents()) + PrintNodes(ts)
    decreases ts, 1
  {
    hide Membuf.Buffer.Contents, Membuf.Buffer.Valid, EscapeText, PrintNodes, Shows, ShowsAttrs, PrintOpen;
    ghost var start, out: Bytes := buf.Contents(), [];
    PrintUnfold(ts);
    FirstType(n, ts, s);
    if n == null {
      out := Wrote(start, out, []);
      return;
    }
    match n.nodeType {
      case TextNode =>
        CopyWithEscape(buf, n.nodeValue);
      case CDataSectionNode =>
        buf.AppendStr(CDSTART);
        out := Wrote(start, out, CDSTART);
        buf.AppendStr(n.nodeValue);
        out := Wrote(start, out, n.nodeValue);
        buf.AppendStr(CDEND);
        out := Wrote(start, out, CDEND);
      case ElementNode =>
        ghost var t := ts[0];
        assert ts == [t] + ts[1..];
        ElementParts(n, t, ts[1..], s);
        PrintElement(n, buf, t, ts[1..], s);
        out := Wrote(start, out, PrintOpen(t.name, t.attrs, t.children));
        var sibling := n.nextSibling;
        FirstType(sibling, ts[1..], s);
        if sibling != null && sibling.nodeType == D.TextNode {
          buf.AppendStr([0x3E]);
        } else {
          buf.AppendStr([0x3E] + CRLF);
        }
        out := Wrote(start, out, PrintClose(ts[1..]));
        PrintDomTreeRecursive(sibling, buf, ts[1..], s);
        out := Wrote(start, out, PrintNodes(ts[1..]));
      case _ =>
    }
  }

  lemma PrintUnfold(ts: seq<Node>)
    ensures PrintNodes(ts) ==
              if ts == [] then []
              else
                match ts[0]
                case Text(v) => EscapeText(v)
                case CData(v) => CDSTART + v + CDEND
                case Element(name, attrs, children) =>
                  PrintOpen(name, attrs, children) + PrintClose(ts[1..]) + PrintNodes(ts[1..])
  {
    hide EscapeText, PrintTagHead, PrintTagEnd;
    if ts != [] && ts[0].Element? {
      var e := ts[0];
      var a := PrintTagHead(e.name, e.attrs) + PrintTagEnd(e.children) + PrintNodes(e.children);
      assert PrintEndTag(e.name, ts[1..]) == [0x3C, 0x2F] + e.name + PrintClose(ts[1..]);
      assert a + ([0x3C, 0x2F] + e.name + PrintClose(ts[1..])) == a + [0x3C, 0x2F] + e.name + PrintClose(ts[1..]);
    }
  }

  /**
   * ixmlPrintDomTree: the node without its following siblings. The tree is given by ts: the node and its
   * following siblings, or the children of a document node.
   */
  method PrintDomTree(n: D.Node?, buf: Membuf.Buffer, ghost ts: seq<Node>, ghost s: set<D.Node>)
    requires buf.Valid()
    requires n != null && n.nodeType == D.DocumentNode ==> Shows(n.firstChild, ts, s)
    requires n != null && n.nodeType in {D.ElementNode, D.TextNode, D.CDataSectionNode} ==> ts != [] && Shows(n, ts, s)
    modifies buf, buf.buf
    ensures buf.Valid() && (buf.buf == old(buf.buf) || fresh(buf.buf))
    ensures buf.Contents() == old(buf.Contents()) + PrintedTree(n, ts)
    ensures n != null && n.nodeType == D.AttributeNode ==>
              buf.Contents() == old(buf.Contents()) + (n.nodeName + [0x3D, 0x22] + EscapeText(n.nodeValue) + [0x22])
  {
    hide Membuf.Buffer.Contents, Membuf.Buffer.Valid, EscapeText, PrintNodes, Shows, ShowsAttrs, PrintOpen, PrintAttr;
    ghost var start, out: Bytes := buf.Contents(), [];
    if n == null {
      out := Wrote(start, out, []);
      return;
    }
    match n.nodeType {
      case TextNode =>
        FirstType(n, ts, s);
        PrintOne(ts);
        PrintDomTreeRecursive(n, buf, ts, s);
      case CDataSectionNode =>
        FirstType(n, ts, s);
        PrintOne(ts);
        PrintDomTreeRecursive(n, buf, ts, s);
      case DocumentNode =>
        PrintDomTreeRecursive(n.firstChild, buf, ts, s);
      case AttributeNode =>
        PrintAttribute(n, buf);
        AttrIs(Attr(n.nodeName, n.nodeValue));
      case ElementNode =>
        FirstType(n, ts, s);
        PrintOne(ts);
        ghost var t := ts[0];
        assert ts == [t] + ts[1..];
        PrintElement(n, buf, t, ts[1..], s);
        out := Wrote(start, out, PrintOpen(t.name, t.attrs, t.children));
        buf.AppendStr([0x3E] + CRLF);
        out := Wrote(start, out, PrintClose([]));
    }
  }

  ghost function PrintedTree(n: D.Node?, ts: seq<Node>): Bytes
    reads n
  {
    if n == null then []
    else
      match n.nodeType
      case AttributeNode => PrintAttr(Attr(n.nodeName, n.nodeValue))
      case DocumentNode => PrintNodes(ts)
      case _ => if ts == [] then [] else PrintNodes([ts[0]])
  }

  lemma PrintOne(ts: seq<Node>)
    requires ts != []
    ensures ts[0].Element? ==>
              PrintNodes([ts[0]]) == PrintOpen(ts[0].name, ts[0].attrs, ts[0].children) + PrintClose([])
    ensures !ts[0].Element? ==> PrintNodes([ts[0]]) == PrintNodes(ts)
  {
    hide PrintOpen, EscapeText;
    PrintUnfold([ts[0]]);
    PrintUnfold([]);
    if ts[0].Element? {
      var a := PrintOpen(ts[0].name, ts[0].attrs, ts[0].children) + PrintClose([]);
      assert [ts[0]][1..] == [] && a + [] == a;
    }
  }

  /** ixmlPrintDocument */
  method PrintDocumentNode(doc: D.Node, ghost ts: seq<Node>, ghost s: set<D.Node>) returns (buf: Membuf.Buffer)
    requires doc.nodeType == D.DocumentNode && Shows(doc.firstChild, ts, s)
    ensures fresh(buf) && buf.Valid() && buf.Contents() == PrintDocument(ts)
  {
    hide Membuf.Buffer.Contents, PrintNodes, Shows;
    buf := new Membuf.Buffer();
    buf.AppendStr(PROLOG);
    PrintDomTree(doc, buf, ts, s);
    assert [] + PROLOG == PROLOG;
  }
}
