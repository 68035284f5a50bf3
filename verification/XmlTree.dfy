/**
 * Documents as values, and the printer (src/ixml/ixml.c:86-177). A node pointer in the C code
 * stands for the node together with its following siblings, so the recursive printer is a
 * function on the sequence of siblings that starts at the node.
 */
module XmlTree {
  import opened CStrings
  import opened Escape

  datatype Attr = Attr(name: Bytes, value: Bytes)

  datatype Node =
    | Element(name: Bytes, attrs: seq<Attr>, children: seq<Node>)
    | Text(value: Bytes)
    | CData(value: Bytes)

  const CDSTART: Bytes := [0x3C, 0x21, 0x5B, 0x43, 0x44, 0x41, 0x54, 0x41, 0x5B]  // <![CDATA[
  const CDEND: Bytes := [0x5D, 0x5D, 0x3E]                                        // ]]>
  const CRLF: Bytes := [0x0D, 0x0A]

  /** The bytes printed for an attribute node and the attributes behind it. */
  function PrintAttrs(attrs: seq<Attr>): Bytes {
    if attrs == [] then []
    else
      attrs[0].name + [0x3D, 0x22] + EscapeText(attrs[0].value) + [0x22]
      + if |attrs| > 1 then [0x20] + PrintAttrs(attrs[1..]) else []
  }

  /** `<name attributes`, without the closing bracket. */
  function PrintTagHead(name: Bytes, attrs: seq<Attr>): Bytes {
    [0x3C] + name + if attrs != [] then [0x20] + PrintAttrs(attrs) else []
  }

  /** The bracket that ends a start tag; a first child that is an element goes on a new line. */
  function PrintTagEnd(children: seq<Node>): Bytes {
    if children != [] && children[0].Element? then [0x3E] + CRLF else [0x3E]
  }

  /** `</name` and the bracket behind it; a following text sibling stays on the same line. */
  function PrintEndTag(name: Bytes, following: seq<Node>): Bytes {
    [0x3C, 0x2F] + name + if following != [] && following[0].Text? then [0x3E] else [0x3E] + CRLF
  }

  /** ixmlPrintDomTreeRecursive on a node and its following siblings. Text and CDATA end the walk. */
  function PrintNodes(nodes: seq<Node>): Bytes {
    if nodes == [] then []
    else
      match nodes[0]
      case Text(v) => EscapeText(v)
      case CData(v) => CDSTART + v + CDEND
      case Element(name, attrs, children) =>
        PrintTagHead(name, attrs) + PrintTagEnd(children) + PrintNodes(children)
        + PrintEndTag(name, nodes[1..]) + PrintNodes(nodes[1..])
  }

  // <?xml version="1.0"?> and a line break
  const PROLOG: Bytes := [0x3C, 0x3F, 0x78, 0x6D, 0x6C, 0x20, 0x76, 0x65, 0x72, 0x73, 0x69, 0x6F, 0x6E,
                          0x3D, 0x22, 0x31, 0x2E, 0x30, 0x22, 0x3F, 0x3E, 0x0D, 0x0A]

  /** ixmlPrintDocument: the prolog and the children of the document node. */
  function PrintDocument(doc: seq<Node>): Bytes {
    PROLOG + PrintNodes(doc)
  }
}
