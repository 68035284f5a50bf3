/**
 * The bytes of a printed document: where the printer breaks lines (src/ixml/ixml.c:86-177, 363-379), and one
 * document byte by byte.
 */
module Layout {
  import opened CStrings
  import opened Escape
  import opened XmlTree

  // ---- line breaks ----

  /** How often the byte b occurs. */
  function Count(s: Bytes, b: Byte): nat {
    if s == [] then 0 else (if s[0] == b then 1 else 0) + Count(s[1..], b)
  }

  lemma {:induction false} CountAppend(s: Bytes, t: Bytes, b: Byte)
    ensures Count(s + t, b) == Count(s, b) + Count(t, b)
  {
    if s == [] {
      assert s + t == t;
    } else {
      assert (s + t)[1..] == s[1..] + t;
      CountAppend(s[1..], t, b);
    }
  }

  /** Every LF follows a CR. */
  predicate Paired(s: Bytes) {
    forall i | 0 <= i < |s| && s[i] == 0x0A :: i > 0 && s[i - 1] == 0x0D
  }

  /** The bytes hold n line breaks CR LF, and no CR or LF besides. */
  predicate Breaks(s: Bytes, n: nat) {
    Paired(s) && Count(s, 0x0A) == n && Count(s, 0x0D) == n
  }

  lemma BreaksAppend(s: Bytes, m: nat, t: Bytes, n: nat)
    requires Breaks(s, m) && Breaks(t, n)
    ensures Breaks(s + t, m + n)
  {
    hide Count;
    CountAppend(s, t, 0x0A);
    CountAppend(s, t, 0x0D);
    var u := s + t;
    forall i | 0 <= i < |u| && u[i] == 0x0A
      ensures i > 0 && u[i - 1] == 0x0D
    {
      if i >= |s| {
        assert t[i - |s|] == 0x0A;
      }
    }
  }

  predicate OneLine(s: Bytes) {
    forall i | 0 <= i < |s| :: s[i] != 0x0A && s[i] != 0x0D
  }

  lemma {:induction false} OneLineBreaks(s: Bytes)
    requires OneLine(s)
    ensures Breaks(s, 0)
  {
    if s != [] {
      OneLineBreaks(s[1..]);
    }
  }

  lemma {:induction false} EscapedOneLine(s: Bytes)
    requires OneLine(s)
    ensures OneLine(EscapeText(s))
  {
    if s != [] {
      EscapedOneLine(s[1..]);
    }
  }

  /** No name, value or text holds a CR or an LF. */
  predicate Unbroken(nodes: seq<Node>) {
    nodes == [] ||
    (Unbroken(nodes[1..]) &&
     match nodes[0]
     case Element(name, attrs, children) =>
       && OneLine(name) && Unbroken(children)
       && forall i | 0 <= i < |attrs| :: OneLine(attrs[i].name) && OneLine(attrs[i].value)
     case Text(v) => OneLine(v)
     case CData(v) => OneLine(v))
  }

  /** The printed elements: text and CDATA end a row of siblings. */
  function Printed(nodes: seq<Node>): nat {
    if nodes == [] || !nodes[0].Element? then 0
    else 1 + Printed(nodes[0].children) + Printed(nodes[1..])
  }

  /** Those whose first child is an element. */
  function Opening(nodes: seq<Node>): nat {
    if nodes == [] || !nodes[0].Element? then 0
    else
      var c := nodes[0].children;
      (if c != [] && c[0].Element? then 1 else 0) + Opening(c) + Opening(nodes[1..])
  }

  /** Those with text behind them. */
  function Followed(nodes: seq<Node>): (n: nat)
    ensures n <= Printed(nodes)
  {
    if nodes == [] || !nodes[0].Element? then 0
    else
      (if |nodes| > 1 && nodes[1].Text? then 1 else 0) + Followed(nodes[0].children) + Followed(nodes[1..])
  }

  lemma {:induction false} AttrsOneLine(attrs: seq<Attr>)
    requires forall i | 0 <= i < |attrs| :: OneLine(attrs[i].name) && OneLine(attrs[i].value)
    ensures OneLine(PrintAttrs(attrs))
  {
    if attrs != [] {
      EscapedOneLine(attrs[0].value);
      AttrsOneLine(attrs[1..]);
    }
  }

  lemma HeadOneLine(name: Bytes, attrs: seq<Attr>)
    requires OneLine(name) && OneLine(PrintAttrs(attrs))
    ensures OneLine(PrintTagHead(name, attrs))
  {
  }

  lemma TagEndBreaks(children: seq<Node>)
    ensures Breaks(PrintTagEnd(children), if children != [] && children[0].Element? then 1 else 0)
  {
    CountTwo(0x3E, 0x0D, 0x0A);
  }

  lemma CountOne(a: Byte, b: Byte)
    ensures Count([a], b) == if a == b then 1 else 0
  {
    assert [a][1..] == [];
  }

  lemma CountTwo(a: Byte, b: Byte, c: Byte)
    requires a !in {0x0A, 0x0D} && b == 0x0D && c == 0x0A
    ensures Breaks([a] + [b, c], 1) && Breaks([a], 0)
  {
    assert [b, c][1..] == [c];
    CountOne(a, 0x0A);
    CountOne(a, 0x0D);
    CountOne(c, 0x0A);
    CountOne(c, 0x0D);
    BreaksAppend([a], 0, [b, c], 1);
  }

  lemma EndTagBreaks(name: Bytes, following: seq<Node>)
    requires OneLine(name)
    ensures Breaks(PrintEndTag(name, following), if following != [] && following[0].Text? then 0 else 1)
  {
    hide Breaks;
    OneLineBreaks([0x3C, 0x2F] + name);
    CountTwo(0x3E, 0x0D, 0x0A);
    var b := following != [] && following[0].Text?;
    BreaksAppend([0x3C, 0x2F] + name, 0, if b then [0x3E] else [0x3E] + [0x0D, 0x0A], if b then 0 else 1);
  }

  lemma {:induction false} NodesBreaks(nodes: seq<Node>)
    requires Unbroken(nodes)
    ensures Breaks(PrintNodes(nodes), Printed(nodes) + Opening(nodes) - Followed(nodes))
    decreases nodes
  {
    hide Breaks, OneLine, EscapeText, PrintTagHead, PrintTagEnd, PrintEndTag;
    if nodes == [] {
      NothingBreaks();
    } else {
      match nodes[0]
      case Text(v) =>
        EscapedOneLine(v);
        OneLineBreaks(EscapeText(v));
      case CData(v) => SectionBreaks(v);
      case Element(name, attrs, children) =>
        var following := nodes[1..];
        AttrsOneLine(attrs);
        HeadOneLine(name, attrs);
        OneLineBreaks(PrintTagHead(name, attrs));
        TagEndBreaks(children);
        NodesBreaks(children);
        EndTagBreaks(name, following);
        NodesBreaks(following);
        var a := if children != [] && children[0].Element? then 1 else 0;
        var b := Printed(children) + Opening(children) - Followed(children);
        var c := if following != [] && following[0].Text? then 0 else 1;
        var s1 := PrintTagHead(name, attrs) + PrintTagEnd(children);
        BreaksAppend(PrintTagHead(name, attrs), 0, PrintTagEnd(children), a);
        BreaksAppend(s1, a, PrintNodes(children), b);
        BreaksAppend(s1 + PrintNodes(children), a + b, PrintEndTag(name, following), c);
        BreaksAppend(s1 + PrintNodes(children) + PrintEndTag(name, following), a + b + c,
                     PrintNodes(following), Printed(following) + Opening(following) - Followed(following));
    }
  }

  lemma NothingBreaks()
    ensures Breaks([], 0)
  {
  }

  lemma SectionBreaks(v: Bytes)
    requires OneLine(v)
    ensures Breaks(CDSTART + v + CDEND, 0)
  {
    OneLineBreaks(CDSTART + v + CDEND);
  }

  /**
   * The printed document begins with the declaration on a line of its own. Its lines end in CR LF, and there is
   * one end for the declaration, one for each printed element, one more for each that begins with an element,
   * and one less for each with text behind it.
   */
  lemma DocumentBreaks(doc: seq<Node>)
    requires Unbroken(doc)
    ensures Breaks(PrintDocument(doc), 1 + Printed(doc) + Opening(doc) - Followed(doc))
    // <?xml version="1.0"?> CR LF
    ensures [0x3C, 0x3F, 0x78, 0x6D, 0x6C, 0x20, 0x76, 0x65, 0x72, 0x73, 0x69, 0x6F, 0x6E, 0x3D, 0x22,
             0x31, 0x2E, 0x30, 0x22, 0x3F, 0x3E, 0x0D, 0x0A] <= PrintDocument(doc)
  {
    hide Breaks, PrintNodes, Printed, Opening, Followed, OneLine;
    NodesBreaks(doc);
    var decl := PROLOG[..20];
    assert OneLine(decl) by {
      assert forall i | 0 <= i < 20 :: PROLOG[i] != 0x0A && PROLOG[i] != 0x0D;
      DeclarationOneLine(decl);
    }
    OneLineBreaks(decl);
    CountTwo(0x3E, 0x0D, 0x0A);
    BreaksAppend(decl, 0, [0x3E] + [0x0D, 0x0A], 1);
    assert PROLOG == decl + ([0x3E] + [0x0D, 0x0A]);
    BreaksAppend(PROLOG, 1, PrintNodes(doc), Printed(doc) + Opening(doc) - Followed(doc));
  }

  lemma DeclarationOneLine(s: Bytes)
    requires forall i | 0 <= i < |s| :: s[i] != 0x0A && s[i] != 0x0D
    ensures OneLine(s)
  {
  }

  // ---- one document ----

  /** A document with two attributes, an element in front of text, and a CDATA section. */
  const EXAMPLE: seq<Node> := [
    Element([0x61], [Attr([0x78], [0x3C, 0x27]), Attr([0x79], [])], [
      Element([0x62], [], [CData([0x5A])]),
      Element([0x63], [], []),
      Text([0x26, 0x31])
    ])
  ]

  lemma EscapedTwo(a: Byte, b: Byte)
    ensures EscapeText([a, b]) == EscapeByte(a) + EscapeByte(b)
  {
    hide EscapeByte;
    assert [a, b][1..] == [b] && [b][1..] == [];
    assert EscapeText([b]) == EscapeByte(b) + [];
  }

  lemma EscapedBytes()
    ensures EscapeText([0x3C, 0x27]) == [0x26, 0x6C, 0x74, 0x3B] + [0x26, 0x61, 0x70, 0x6F, 0x73, 0x3B]
    ensures EscapeText([0x26, 0x31]) == [0x26, 0x61, 0x6D, 0x70, 0x3B] + [0x31]
    ensures EscapeText([0x3E, 0x22]) == [0x26, 0x67, 0x74, 0x3B] + [0x26, 0x71, 0x75, 0x6F, 0x74, 0x3B]
  {
    hide EscapeText;
    EscapedTwo(0x3C, 0x27);
    EscapedTwo(0x26, 0x31);
    EscapedTwo(0x3E, 0x22);
  }

  // <b><![CDATA[Z]]></b> CR LF
  const FIRST: Bytes :=
    [0x3C, 0x62, 0x3E] + ([0x3C, 0x21, 0x5B, 0x43, 0x44, 0x41, 0x54, 0x41, 0x5B] + [0x5A] + [0x5D, 0x5D, 0x3E])
    + [0x3C, 0x2F, 0x62, 0x3E, 0x0D, 0x0A]

  // <c></c>
  const SECOND: Bytes := [0x3C, 0x63, 0x3E, 0x3C, 0x2F, 0x63, 0x3E]

  /** One element and what is behind it. */
  lemma ElementBytes(nodes: seq<Node>)
    requires nodes != [] && nodes[0].Element?
    ensures var n := nodes[0];
            PrintNodes(nodes) == (PrintTagHead(n.name, n.attrs) + PrintTagEnd(n.children) + PrintNodes(n.children)
                                  + PrintEndTag(n.name, nodes[1..])) + PrintNodes(nodes[1..])
  {
    hide PrintTagHead, PrintTagEnd, PrintEndTag;
  }

  lemma NoBytes()
    ensures PrintNodes([]) == []
  {
  }

  lemma SectionBytes()
    ensures PrintNodes([CData([0x5A])])
         == [0x3C, 0x21, 0x5B, 0x43, 0x44, 0x41, 0x54, 0x41, 0x5B] + [0x5A] + [0x5D, 0x5D, 0x3E]
  {
  }

  lemma FirstTags(following: seq<Node>)
    requires following != [] && following[0].Element?
    ensures PrintTagHead([0x62], []) + PrintTagEnd([CData([0x5A])]) == [0x3C, 0x62, 0x3E]
    ensures PrintEndTag([0x62], following) == [0x3C, 0x2F, 0x62, 0x3E, 0x0D, 0x0A]
  {
  }

  lemma FirstBytes(following: seq<Node>)
    requires following != [] && following[0].Element?
    ensures PrintNodes([Element([0x62], [], [CData([0x5A])])] + following) == FIRST + PrintNodes(following)
  {
    hide PrintNodes, PrintTagHead, PrintTagEnd, PrintEndTag;
    var b := Element([0x62], [], [CData([0x5A])]);
    assert ([b] + following)[1..] == following;
    ElementBytes([b] + following);
    SectionBytes();
    FirstTags(following);
  }

  lemma SecondBytes(following: seq<Node>)
    requires following != [] && following[0].Text?
    ensures PrintNodes([Element([0x63], [], [])] + following) == SECOND + PrintNodes(following)
  {
    var c := Element([0x63], [], []);
    assert ([c] + following)[1..] == following;
    ElementBytes([c] + following);
    NoBytes();
    hide PrintNodes;
    assert PrintTagHead(c.name, []) + PrintTagEnd([]) + [] + PrintEndTag(c.name, following) == SECOND;
  }

  lemma InsideBytes()
    ensures PrintNodes(EXAMPLE[0].children) == FIRST + (SECOND + ([0x26, 0x61, 0x6D, 0x70, 0x3B] + [0x31]))
  {
    var b, c, t := Element([0x62], [], [CData([0x5A])]), Element([0x63], [], []), Text([0x26, 0x31]);
    assert EXAMPLE[0].children == [b] + ([c] + [t]);
    EscapedBytes();
    assert PrintNodes([t]) == ([0x26, 0x61, 0x6D, 0x70, 0x3B] + [0x31]);
    hide PrintNodes, EscapeText;
    FirstBytes([c] + [t]);
    SecondBytes([t]);
  }

  lemma AttrBytes()
    // x="&lt;&apos;" y=""
    ensures PrintAttrs(EXAMPLE[0].attrs)
         == [0x78, 0x3D, 0x22] + ([0x26, 0x6C, 0x74, 0x3B] + [0x26, 0x61, 0x70, 0x6F, 0x73, 0x3B]) + [0x22]
            + [0x20, 0x79, 0x3D, 0x22, 0x22]
  {
    hide EscapeText;
    EscapedBytes();
    var attrs := EXAMPLE[0].attrs;
    assert attrs[1..] == [attrs[1]];
    assert EscapeText([]) == [] by {
      NothingEscaped();
    }
    assert PrintAttrs([attrs[1]]) == [0x79, 0x3D, 0x22, 0x22];
  }

  lemma NothingEscaped()
    ensures EscapeText([]) == []
  {
  }

  /** Every byte of the printed example. */
  lemma ExampleBytes()
    ensures PrintDocument(EXAMPLE) ==
              // <?xml version="1.0"?> CR LF
              [0x3C, 0x3F, 0x78, 0x6D, 0x6C, 0x20, 0x76, 0x65, 0x72, 0x73, 0x69, 0x6F, 0x6E, 0x3D, 0x22,
               0x31, 0x2E, 0x30, 0x22, 0x3F, 0x3E, 0x0D, 0x0A]
              // <a x="&lt;&apos;" y=""> CR LF
              + (([0x3C, 0x61] + ([0x20] + ([0x78, 0x3D, 0x22] + ([0x26, 0x6C, 0x74, 0x3B] + [0x26, 0x61, 0x70, 0x6F, 0x73, 0x3B])
                                            + [0x22] + [0x20, 0x79, 0x3D, 0x22, 0x22]))
                  + [0x3E, 0x0D, 0x0A]
                  // the inside, ending in &amp;1
                  + (FIRST + (SECOND + ([0x26, 0x61, 0x6D, 0x70, 0x3B] + [0x31])))
                  // </a> CR LF
                  + [0x3C, 0x2F, 0x61, 0x3E, 0x0D, 0x0A])
                 + [])
  {
    var n := EXAMPLE[0];
    assert EXAMPLE[1..] == [];
    ElementBytes(EXAMPLE);
    NoBytes();
    InsideBytes();
    AttrBytes();
    hide PrintNodes, PrintAttrs;
    assert PrintTagHead(n.name, n.attrs) == [0x3C, 0x61] + ([0x20] + PrintAttrs(n.attrs));
    assert PrintTagEnd(n.children) == [0x3E, 0x0D, 0x0A];
    assert PrintEndTag(n.name, []) == [0x3C, 0x2F, 0x61, 0x3E, 0x0D, 0x0A];
  }
}
