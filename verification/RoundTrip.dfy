/**
 * Parsing what the printer prints gives the document back: what is printed is a document of the grammar, with quotes
 * around values, entities for the characters of markup, and line breaks between tags.
 */
module RoundTrip {
  import opened CStrings
  import opened Utf8
  import opened XmlChars
  import opened Escape
  import opened XmlTree
  import opened Namespaces
  import opened NamespaceWalk
  import opened Parser
  import opened ParserInvariant
  import opened TokenLemmas
  import opened References
  import opened Sources
  import opened SourceDocument

  predicate ValidAttrs(attrs: seq<Attr>) {
    DistinctAttrs(attrs) && forall i | 0 <= i < |attrs| :: ValidName(attrs[i].name) && WellFormed(attrs[i].value)
  }

  /**
   * Siblings that survive printing and parsing, as far as their namespaces do: valid names, distinct attribute
   * names, well-formed text that is not blank, CDATA the parser can scan, and text or CDATA only as the last
   * sibling.
   */
  predicate ValidNodes(nodes: seq<Node>) {
    nodes == [] ||
    match nodes[0]
    case Element(name, attrs, children) =>
      ValidName(name) && ValidAttrs(attrs) && ValidNodes(children) && ValidNodes(nodes[1..])
    case Text(v) => WellFormed(v) && !AllWhite(v) && |nodes| == 1
    case CData(v) => ValidCData(v) && |nodes| == 1
  }

  /** The same, but text may be blank. */
  predicate SoundNodes(nodes: seq<Node>) {
    nodes == [] ||
    match nodes[0]
    case Element(name, attrs, children) =>
      ValidName(name) && ValidAttrs(attrs) && SoundNodes(children) && SoundNodes(nodes[1..])
    case Text(v) => WellFormed(v) && |nodes| == 1
    case CData(v) => ValidCData(v) && |nodes| == 1
  }

  /** What is left of siblings when blank text at their end is dropped, at every depth. */
  function WithoutBlank(nodes: seq<Node>): seq<Node> {
    if nodes == [] then []
    else if nodes[0].Element? then [KeptElement(nodes[0])] + WithoutBlank(nodes[1..])
    else if nodes[0].Text? && AllWhite(nodes[0].value) then []
    else nodes
  }

  function KeptElement(node: Node): Node
    requires node.Element?
  {
    Element(node.name, node.attrs, WithoutBlank(node.children))
  }

  /** Sound siblings are valid exactly when there is no blank text to drop. */
  lemma {:induction false} ValidIffKept(nodes: seq<Node>)
    ensures ValidNodes(nodes) <==> SoundNodes(nodes) && WithoutBlank(nodes) == nodes
    ensures SoundNodes(nodes) ==> ValidNodes(WithoutBlank(nodes))
  {
    hide WellFormed, ValidName, ValidAttrs, ValidCData;
    if nodes != [] && nodes[0].Element? {
      ValidIffKept(nodes[0].children);
      ValidIffKept(nodes[1..]);
      var kept := WithoutBlank(nodes);
      assert kept[1..] == WithoutBlank(nodes[1..]);
      assert nodes == [nodes[0]] + nodes[1..];
    }
  }

  /** A document with one top-level element and nothing else. */
  predicate ValidDocument(doc: seq<Node>) {
    |doc| == 1 && doc[0].Element? && ValidNodes(doc)
  }

  // ---- escaped text ----

  /** The character as the printer writes it. */
  function SpelledChar(c: int): Spelling {
    if c in {0x3C, 0x3E, 0x26, 0x27, 0x22} then Entity(c, EscapeByte(c)) else Plain(c)
  }

  /** Text as the printer writes it. */
  function Spelled(v: Bytes): seq<Spelling>
    requires WellFormed(v)
    decreases |v|
  {
    if v == [] then []
    else
      var (c, n) := Utf8ToInt(v);
      [SpelledChar(c)] + Spelled(v[n..])
  }

  lemma {:induction false} SpelledOne(c: int)
    requires IsXmlChar(c)
    ensures Correct(SpelledChar(c))
    ensures Raw(SpelledChar(c)) == if c < 0x80 then EscapeByte(c) else IntToUtf8(c)
  {
    hide Digits;
  }

  /** The grammar spells escaped text so, and means the text by it. */
  lemma {:induction false} SpelledText(v: Bytes)
    requires WellFormed(v)
    ensures CorrectText(Spelled(v)) && RawText(Spelled(v)) == EscapeText(v) && Meant(Spelled(v)) == v
    decreases |v|
  {
    hide Correct, Raw, IntToUtf8, Utf8ToInt, EscapeByte;
    if v != [] {
      var (c, n) := Utf8ToInt(v);
      SpelledText(v[n..]);
      SpelledOne(c);
      assert v == v[..n] + v[n..];
      var xs := Spelled(v);
      assert xs[0] == SpelledChar(c) && xs[1..] == Spelled(v[n..]);
      EscapedChar(v);
    }
  }

  /** The first character of escaped text. */
  lemma {:induction false} EscapedChar(v: Bytes)
    requires WellFormed(v) && v != []
    ensures var (c, n) := Utf8ToInt(v);
            EscapeText(v) == (if c < 0x80 then EscapeByte(c) else IntToUtf8(c)) + EscapeText(v[n..]) && SpelledChar(c).c == c
  {
    hide EscapeText, EscapeByte;
    var (c, n) := Utf8ToInt(v);
    if n == 1 {
      assert IntToUtf8(c) == [v[0]];
      EscapeUnfold(v);
    } else {
      EncodedHigh(c);
      EscapeHigh(v[..n], v[n..]);
      assert v == v[..n] + v[n..];
    }
  }

  lemma {:induction false} EscapedGap(v: Bytes)
    requires Gap(EscapeText(v))
    ensures AllWhite(v)
  {
    if v != [] {
      var e, rest := EscapeByte(v[0]), EscapeText(v[1..]);
      assert EscapeText(v)[0] == e[0];
      assert forall i | 0 <= i < |rest| :: rest[i] == EscapeText(v)[|e| + i];
      EscapedGap(v[1..]);
    }
  }

  lemma {:induction false} TextCorrect(v: Bytes)
    requires WellFormed(v) && !AllWhite(v)
    ensures CorrectChars(Spelled(v))
  {
    hide CorrectText, RawText, Meant, EscapeText, Spelled, WellFormed, Gap;
    SpelledText(v);
    EscapedHasNoMarkup(v);
    if Gap(EscapeText(v)) {
      EscapedGap(v);
    }
    var raw := EscapeText(v);
    forall i | 0 <= i < |raw|
      ensures !([0x5D, 0x5D, 0x3E] <= raw[i..])
    {
      assert |raw[i..]| >= 3 ==> raw[i..][2] == raw[i + 2];
    }
  }

  lemma {:induction false} BlankEscape(v: Bytes)
    requires AllWhite(v)
    ensures EscapeText(v) == v && Gap(v)
  {
    if v != [] {
      assert EscapeByte(v[0]) == [v[0]];
      BlankEscape(v[1..]);
      assert v == [v[0]] + v[1..];
    }
  }

  // ---- tags ----

  /** A space, name="value" */
  function AttrWritten(a: Attr): Written
    requires WellFormed(a.value)
  {
    Written([0x20], a.name, [], [], 0x22, Spelled(a.value))
  }

  function AttrsWritten(attrs: seq<Attr>): (r: seq<Written>)
    requires forall i | 0 <= i < |attrs| :: WellFormed(attrs[i].value)
    ensures |r| == |attrs|
  {
    if attrs == [] then [] else [AttrWritten(attrs[0])] + AttrsWritten(attrs[1..])
  }

  lemma {:induction false} AttrsCorrect(attrs: seq<Attr>)
    requires forall i | 0 <= i < |attrs| :: ValidName(attrs[i].name) && WellFormed(attrs[i].value)
    ensures MeantAttrs(AttrsWritten(attrs)) == attrs
    ensures forall i | 0 <= i < |attrs| :: CorrectAttr(AttrsWritten(attrs)[i])
  {
    hide ValidName, WellFormed, Spelled, RawText, Meant, CorrectText, CorrectAttr;
    if attrs != [] {
      AttrsCorrect(attrs[1..]);
      AttrCorrect(attrs[0]);
      var ws := AttrsWritten(attrs);
      assert ws[1..] == AttrsWritten(attrs[1..]);
      assert attrs == [attrs[0]] + attrs[1..];
      SpelledText(attrs[0].value);
    }
  }

  lemma {:induction false} AttrCorrect(a: Attr)
    requires ValidName(a.name) && WellFormed(a.value)
    ensures CorrectAttr(AttrWritten(a))
  {
    hide ValidName, WellFormed, Spelled, RawText, Meant, CorrectText, EscapeText;
    SpelledText(a.value);
    EscapedHasNoMarkup(a.value);
  }

  /** The printed list, with the space in front of it. */
  lemma {:induction false} AttrsPrinted(attrs: seq<Attr>, t: Bytes)
    requires attrs != [] && forall i | 0 <= i < |attrs| :: WellFormed(attrs[i].value)
    ensures AttrsBytes(AttrsWritten(attrs), t) == [0x20] + (PrintAttrs(attrs) + t)
    decreases |attrs|
  {
    hide WellFormed, Spelled, RawText, EscapeText;
    var a, ws := attrs[0], AttrsWritten(attrs);
    assert ws[1..] == AttrsWritten(attrs[1..]);
    SpelledText(a.value);
    var e := EscapeText(a.value);
    var rest := AttrsBytes(ws[1..], t);
    RegroupAttr(a.name, e, rest);
    if |attrs| > 1 {
      AttrsPrinted(attrs[1..], t);
      Regroup(a.name + [0x3D, 0x22] + e + [0x22], [0x20], PrintAttrs(attrs[1..]), t);
    } else {
      assert attrs[1..] == [];
      assert a.name + [0x3D, 0x22] + e + [0x22] + [] == a.name + [0x3D, 0x22] + e + [0x22];
    }
  }

  lemma RegroupAttr(n: Bytes, e: Bytes, r: Bytes)
    ensures [0x20] + (n + ([] + ([0x3D] + ([] + ([0x22] + (e + ([0x22] + r)))))))
         == [0x20] + ((n + [0x3D, 0x22] + e + [0x22]) + r)
  {
  }

  lemma Regroup(a: Bytes, b: Bytes, c: Bytes, d: Bytes)
    ensures a + (b + (c + d)) == (a + (b + c)) + d
  {
  }

  // ---- the printed document ----

  /** A line break between tags. */
  function BreakIf(b: bool): seq<Part> {
    if b then [Blank([0x0D, 0x0A])] else []
  }

  /** Siblings as the printer writes them. */
  function AsParts(nodes: seq<Node>): seq<Part>
    requires SoundNodes(nodes)
  {
    if nodes == [] then []
    else
      match nodes[0]
      case Text(v) => if AllWhite(v) then [Blank(v)] else [Chars(Spelled(v))]
      case CData(v) => [Section(v)]
      case Element(name, attrs, children) =>
        [Tag(name, AttrsWritten(attrs), [], Filled(BreakIf(BeginsWithElement(children)) + AsParts(children), []))]
        + (BreakIf(!BeginsWithText(nodes[1..])) + AsParts(nodes[1..]))
  }

  predicate BeginsWithElement(nodes: seq<Node>) {
    nodes != [] && nodes[0].Element?
  }

  predicate BeginsWithText(nodes: seq<Node>) {
    nodes != [] && nodes[0].Text?
  }

  lemma {:induction false} SoundParts(nodes: seq<Node>)
    requires SoundNodes(nodes) && nodes != [] && nodes[0].Element?
    ensures SoundNodes(nodes[0].children) && SoundNodes(nodes[1..]) && ValidName(nodes[0].name) && ValidAttrs(nodes[0].attrs)
  {
    hide WellFormed, ValidName, ValidAttrs, ValidCData;
  }

  /** What the printer writes for an element and what is behind it. */
  lemma {:induction false} ElementParts(nodes: seq<Node>) returns (tag: Part, inside: seq<Part>, behind: seq<Part>)
    requires SoundNodes(nodes) && nodes != [] && nodes[0].Element?
    ensures SoundNodes(nodes[0].children) && SoundNodes(nodes[1..]) && ValidName(nodes[0].name) && ValidAttrs(nodes[0].attrs)
    ensures inside == BreakIf(BeginsWithElement(nodes[0].children)) + AsParts(nodes[0].children)
    ensures behind == BreakIf(!BeginsWithText(nodes[1..])) + AsParts(nodes[1..])
    ensures tag == Tag(nodes[0].name, AttrsWritten(nodes[0].attrs), [], Filled(inside, []))
    ensures AsParts(nodes) == [tag] + behind
  {
    hide WellFormed, ValidName, ValidCData, BreakIf;
    SoundParts(nodes);
    inside := BreakIf(BeginsWithElement(nodes[0].children)) + AsParts(nodes[0].children);
    behind := BreakIf(!BeginsWithText(nodes[1..])) + AsParts(nodes[1..]);
    tag := Tag(nodes[0].name, AttrsWritten(nodes[0].attrs), [], Filled(inside, []));
  }

  lemma {:induction false} PartsBegin(nodes: seq<Node>)
    requires SoundNodes(nodes)
    ensures var parts := AsParts(nodes);
            (parts == [] <==> nodes == [])
            && (nodes != [] ==> if nodes[0].Text? then IsText(parts[0]) else !IsText(parts[0]))
  {
  }

  lemma {:induction false} BreakCorrect(b: bool, parts: seq<Part>)
    requires CorrectParts(parts) && (b && parts != [] ==> !IsText(parts[0]))
    ensures CorrectParts(BreakIf(b) + parts) && Nodes(BreakIf(b) + parts) == Nodes(parts)
  {
    hide CorrectPart;
    if b {
      assert (BreakIf(b) + parts)[1..] == parts;
      GapBreak();
    } else {
      assert BreakIf(b) + parts == parts;
    }
  }

  lemma {:induction false} GapBreak()
    ensures CorrectPart(Blank([0x0D, 0x0A]))
  {
  }

  /** What is printed is correct, and stands for the nodes without blank text. */
  lemma {:induction false} PartsCorrect(nodes: seq<Node>)
    requires SoundNodes(nodes)
    ensures CorrectParts(AsParts(nodes)) && Nodes(AsParts(nodes)) == WithoutBlank(nodes)
    decreases nodes
  {
    hide WellFormed, ValidName, ValidCData, CorrectPart, CorrectParts, ValidAttrs, Nodes, AsParts, MeantAttrs, BreakIf;
    if nodes == [] {
      NothingCorrect();
    } else if !nodes[0].Element? {
      LeafCorrect(nodes);
    } else {
      var tag, inside, behind := ElementParts(nodes);
      var children, following := nodes[0].children, nodes[1..];
      PartsCorrect(children);
      PartsCorrect(following);
      PartsBegin(children);
      PartsBegin(following);
      BreakCorrect(BeginsWithElement(children), AsParts(children));
      BreakCorrect(!BeginsWithText(following), AsParts(following));
      TagCorrect(nodes[0].name, nodes[0].attrs, inside);
      TagInFront(tag, behind);
    }
  }

  lemma {:induction false} NothingCorrect()
    ensures AsParts([]) == [] && CorrectParts([]) && Nodes([]) == [] && WithoutBlank([]) == []
  {
  }

  lemma {:induction false} LeafCorrect(nodes: seq<Node>)
    requires SoundNodes(nodes) && nodes != [] && !nodes[0].Element?
    ensures CorrectParts(AsParts(nodes)) && Nodes(AsParts(nodes)) == WithoutBlank(nodes)
  {
    hide WellFormed, ValidCData, Spelled, CorrectChars, Meant;
    assert nodes == [nodes[0]] && AsParts(nodes)[1..] == [];
    if nodes[0].Text? {
      if AllWhite(nodes[0].value) {
        BlankEscape(nodes[0].value);
      } else {
        TextCorrect(nodes[0].value);
        SpelledText(nodes[0].value);
      }
    }
  }

  lemma {:induction false} TagCorrect(name: Bytes, attrs: seq<Attr>, content: seq<Part>)
    requires ValidName(name) && ValidAttrs(attrs) && CorrectParts(content)
    ensures CorrectPart(Tag(name, AttrsWritten(attrs), [], Filled(content, []))) && MeantAttrs(AttrsWritten(attrs)) == attrs
  {
    hide ValidName, WellFormed, CorrectAttr, MeantAttrs, AttrsWritten;
    AttrsCorrect(attrs);
  }

  lemma {:induction false} TagInFront(tag: Part, parts: seq<Part>)
    requires tag.Tag? && tag.body.Filled? && CorrectPart(tag) && CorrectParts(parts)
    ensures CorrectParts([tag] + parts)
    ensures Nodes([tag] + parts) == [Element(tag.name, MeantAttrs(tag.attrs), Nodes(tag.body.content))] + Nodes(parts)
  {
    hide CorrectPart, MeantAttrs;
    assert ([tag] + parts)[1..] == parts;
  }

  /** Siblings are printed as these parts. */
  lemma {:induction false} PartsPrinted(nodes: seq<Node>, t: Bytes)
    requires SoundNodes(nodes)
    ensures PartsBytes(AsParts(nodes), t) == PrintNodes(nodes) + t
    decreases nodes
  {
    hide WellFormed, ValidName, ValidCData, AsParts, PrintNodes, AttrsBytes, AttrsWritten, BreakIf, PartsBytes;
    if nodes == [] {
      NothingPrinted(t);
    } else if !nodes[0].Element? {
      LeafPrinted(nodes, t);
    } else {
      var tag, inside, behind := ElementParts(nodes);
      var name, attrs, children, following := nodes[0].name, nodes[0].attrs, nodes[0].children, nodes[1..];
      var b, c := !BeginsWithText(following), BeginsWithElement(children);
      PartsPrinted(following, t);
      BreakPrinted(b, AsParts(following), t);
      var close := [0x3C, 0x2F] + (name + ([] + ([0x3E] + (LineBreak(b) + (PrintNodes(following) + t)))));
      PartsPrinted(children, close);
      BreakPrinted(c, AsParts(children), close);
      TagPrinted(tag, behind, t);
      ElementPrinted(nodes, t);
    }
  }

  lemma {:induction false} NothingPrinted(t: Bytes)
    ensures PartsBytes(AsParts([]), t) == PrintNodes([]) + t
  {
    assert [] + t == t;
  }

  /** The bytes of a tag with content and of what is behind it. */
  lemma {:induction false} TagPrinted(tag: Part, behind: seq<Part>, t: Bytes)
    requires tag.Tag? && tag.body.Filled? && tag.gap == [] && tag.body.gap == []
    ensures PartsBytes([tag] + behind, t)
         == [0x3C] + (tag.name + AttrsBytes(tag.attrs, [] + ([0x3E] +
              PartsBytes(tag.body.content, [0x3C, 0x2F] + (tag.name + ([] + ([0x3E] + PartsBytes(behind, t))))))))
  {
    hide AttrsBytes;
    assert ([tag] + behind)[1..] == behind;
  }

  /** The printed element, in the same form. */
  lemma {:induction false} ElementPrinted(nodes: seq<Node>, t: Bytes)
    requires nodes != [] && nodes[0].Element? && forall i | 0 <= i < |nodes[0].attrs| :: WellFormed(nodes[0].attrs[i].value)
    ensures var name, attrs, children, following := nodes[0].name, nodes[0].attrs, nodes[0].children, nodes[1..];
            var close := [0x3C, 0x2F] + (name + ([] + ([0x3E] + (LineBreak(!BeginsWithText(following)) + (PrintNodes(following) + t)))));
            PrintNodes(nodes) + t
            == [0x3C] + (name + AttrsBytes(AttrsWritten(attrs), [] + ([0x3E] +
                 (LineBreak(BeginsWithElement(children)) + (PrintNodes(children) + close)))))
  {
    hide WellFormed, AttrsBytes, AttrsWritten, PrintTagHead, PrintTagEnd, PrintEndTag;
    var name, attrs, children, following := nodes[0].name, nodes[0].attrs, nodes[0].children, nodes[1..];
    var c := BeginsWithElement(children);
    var close := [0x3C, 0x2F] + (name + ([] + ([0x3E] + (LineBreak(!BeginsWithText(following)) + (PrintNodes(following) + t)))));
    PrintedElement(nodes);
    HeadPrinted(name, attrs, [0x3E] + (LineBreak(c) + (PrintNodes(children) + close)));
    EndPrinted(name, following, PrintNodes(following) + t);
    BreakBytes(c, children);
    RegroupElement(PrintTagHead(name, attrs), LineBreak(c), PrintNodes(children), PrintEndTag(name, following),
                   PrintNodes(following), t);
  }

  lemma {:induction false} PrintedElement(nodes: seq<Node>)
    requires nodes != [] && nodes[0].Element?
    ensures var n := nodes[0];
            PrintNodes(nodes) == PrintTagHead(n.name, n.attrs) + PrintTagEnd(n.children) + PrintNodes(n.children)
                                 + PrintEndTag(n.name, nodes[1..]) + PrintNodes(nodes[1..])
  {
    hide PrintTagHead, PrintTagEnd, PrintEndTag;
  }

  function LineBreak(b: bool): Bytes {
    if b then [0x0D, 0x0A] else []
  }

  lemma {:induction false} LeafPrinted(nodes: seq<Node>, t: Bytes)
    requires SoundNodes(nodes) && nodes != [] && !nodes[0].Element?
    ensures PartsBytes(AsParts(nodes), t) == PrintNodes(nodes) + t
  {
    hide WellFormed, ValidCData, Spelled, RawText, EscapeText;
    assert nodes == [nodes[0]] && AsParts(nodes)[1..] == [];
    if nodes[0].Text? {
      if AllWhite(nodes[0].value) {
        BlankEscape(nodes[0].value);
      } else {
        SpelledText(nodes[0].value);
      }
    } else {
      var v := nodes[0].value;
      assert (CDSTART + v + CDEND) + t == CDSTART + (v + (CDEND + t));
    }
  }

  lemma {:induction false} BreakPrinted(b: bool, parts: seq<Part>, t: Bytes)
    ensures PartsBytes(BreakIf(b) + parts, t) == LineBreak(b) + PartsBytes(parts, t)
  {
    if b {
      assert (BreakIf(b) + parts)[1..] == parts;
    } else {
      assert BreakIf(b) + parts == parts && [] + PartsBytes(parts, t) == PartsBytes(parts, t);
    }
  }

  lemma {:induction false} HeadPrinted(name: Bytes, attrs: seq<Attr>, t: Bytes)
    requires forall i | 0 <= i < |attrs| :: WellFormed(attrs[i].value)
    ensures [0x3C] + (name + AttrsBytes(AttrsWritten(attrs), [] + t)) == PrintTagHead(name, attrs) + t
  {
    hide WellFormed, PrintAttrs;
    assert [] + t == t;
    if attrs != [] {
      AttrsPrinted(attrs, t);
    }
  }

  lemma {:induction false} EndPrinted(name: Bytes, following: seq<Node>, t: Bytes)
    ensures [0x3C, 0x2F] + (name + ([] + ([0x3E] + (LineBreak(!BeginsWithText(following)) + t))))
         == PrintEndTag(name, following) + t
  {
  }

  lemma {:induction false} BreakBytes(c: bool, children: seq<Node>)
    requires c == BeginsWithElement(children)
    ensures PrintTagEnd(children) == [0x3E] + LineBreak(c)
  {
  }

  lemma RegroupElement(head: Bytes, b: Bytes, kids: Bytes, end: Bytes, more: Bytes, t: Bytes)
    ensures head + ([0x3E] + (b + (kids + (end + (more + t))))) == (head + ([0x3E] + b) + kids + end + more) + t
  {
  }

  /** The printed document as a document of the grammar. */
  function PrintedSource(doc: seq<Node>): Source
    requires |doc| == 1 && doc[0].Element? && SoundNodes(doc)
  {
    // version="1.0"
    Source([], Some(Declaration([0x76, 0x65, 0x72, 0x73, 0x69, 0x6F, 0x6E, 0x3D, 0x22, 0x31, 0x2E, 0x30, 0x22], [0x0D, 0x0A])),
           [], None, AsParts(doc)[0], [Blank([0x0D, 0x0A])])
  }

  lemma {:induction false} SourcePrinted(doc: seq<Node>)
    requires |doc| == 1 && doc[0].Element? && SoundNodes(doc)
    ensures SourceBytes(PrintedSource(doc)) == PrintDocument(doc)
    ensures CorrectSource(PrintedSource(doc)) && Nodes([PrintedSource(doc).root]) == WithoutBlank(doc)
  {
    hide SoundNodes, PrintNodes, CorrectPart, CorrectParts, AsParts, RootBytes, Nodes, WithoutBlank;
    RootOf(doc);
    RootPrinted(doc);
    DeclarationPrinted(PrintNodes(doc));
  }

  lemma {:induction false} DeclarationPrinted(t: Bytes)
    ensures [] + ([0x3C, 0x3F, 0x78, 0x6D, 0x6C, 0x20]
                  + ([0x76, 0x65, 0x72, 0x73, 0x69, 0x6F, 0x6E, 0x3D, 0x22, 0x31, 0x2E, 0x30, 0x22]
                     + ([0x3F, 0x3E] + ([0x0D, 0x0A] + t))))
         == PROLOG + t
  {
    DeclarationIs();
    RegroupProlog([0x3C, 0x3F, 0x78, 0x6D, 0x6C, 0x20],
                  [0x76, 0x65, 0x72, 0x73, 0x69, 0x6F, 0x6E, 0x3D, 0x22, 0x31, 0x2E, 0x30, 0x22], [0x3F, 0x3E], [0x0D, 0x0A], t);
  }

  lemma RegroupProlog(a: Bytes, b: Bytes, c: Bytes, d: Bytes, t: Bytes)
    ensures [] + (a + (b + (c + (d + t)))) == (a + (b + (c + d))) + t
  {
  }

  lemma {:induction false} RootOf(doc: seq<Node>)
    requires |doc| == 1 && doc[0].Element? && SoundNodes(doc)
    ensures var parts := AsParts(doc);
            && |parts| == 2 && parts[0].Tag? && parts[1..] == [Blank([0x0D, 0x0A])]
            && CorrectPart(parts[0]) && CorrectParts([Blank([0x0D, 0x0A])]) && Nodes([parts[0]]) == WithoutBlank(doc)
  {
    hide CorrectPart, SoundNodes;
    assert doc[1..] == [];
    PartsCorrect(doc);
    var parts := AsParts(doc);
    assert parts == [parts[0]] + [Blank([0x0D, 0x0A])];
    assert parts[1..] == [Blank([0x0D, 0x0A])] && [Blank([0x0D, 0x0A])][1..] == [] && [parts[0]][1..] == [];
  }

  lemma {:induction false} RootPrinted(doc: seq<Node>)
    requires |doc| == 1 && doc[0].Element? && SoundNodes(doc)
    ensures RootBytes(PrintedSource(doc)) == PrintNodes(doc)
  {
    hide SoundNodes, PrintNodes, PartBytes;
    RootOf(doc);
    PartsPrinted(doc, []);
    assert PrintNodes(doc) + [] == PrintNodes(doc);
  }

  lemma {:induction false} DeclarationIs()
    ensures PROLOG == [0x3C, 0x3F, 0x78, 0x6D, 0x6C, 0x20]
                      + ([0x76, 0x65, 0x72, 0x73, 0x69, 0x6F, 0x6E, 0x3D, 0x22, 0x31, 0x2E, 0x30, 0x22]
                         + ([0x3F, 0x3E] + [0x0D, 0x0A]))
  {
  }

  /** Blank text does not matter to the namespaces. */
  lemma {:induction false} WalkKept(s: Scopes, nodes: seq<Node>)
    requires SoundNodes(nodes)
    ensures WalkNodes(s, WithoutBlank(nodes)) == WalkNodes(s, nodes)
    decreases nodes
  {
    hide WalkStart, WellFormed, ValidName, ValidAttrs, ValidCData;
    if nodes != [] {
      if nodes[0].Element? {
        var kept := WithoutBlank(nodes);
        assert kept[0] == KeptElement(nodes[0]) && kept[1..] == WithoutBlank(nodes[1..]);
        if WalkStart(s, nodes[0].name, nodes[0].attrs).Passed? {
          WalkKept(WalkStart(s, nodes[0].name, nodes[0].attrs).scopes, nodes[0].children);
        }
        if WalkElement(s, nodes[0]).Passed? {
          WalkKept(WalkElement(s, nodes[0]).scopes, nodes[1..]);
        }
      } else if nodes[0].Text? && AllWhite(nodes[0].value) {
        LeavesWalk(s, nodes);
      }
    }
  }

  lemma {:induction false} LeavesWalk(s: Scopes, nodes: seq<Node>)
    requires nodes != [] && !nodes[0].Element?
    ensures WalkNodes(s, nodes) == WalkNodes(s, nodes[1..])
  {
  }

  /**
   * What printing and parsing makes of a sound document: it comes back without its blank text, or the parser
   * stops at a namespace it cannot resolve.
   */
  lemma {:induction false} ParseSound(doc: seq<Node>)
    requires |doc| == 1 && doc[0].Element? && SoundNodes(doc)
    ensures Parse(PrintDocument(doc)) ==
              match WalkNodes(Scopes([], None), doc)
              case Passed(_) => Document(WithoutBlank(doc), TagsOf(WithoutBlank(doc)))
              case Refusal => SyntaxError
              case NullRead => NullDereference
  {
    hide Parse, PrintDocument, SourceBytes, CorrectSource, WalkNodes, Nodes, SoundNodes, WithoutBlank, PrintedSource;
    SourcePrinted(doc);
    DocumentRead(PrintedSource(doc));
    WalkKept(Scopes([], None), doc);
  }

  /**
   * Printing a valid document whose namespaces pass, and parsing the result, gives the document back: names,
   * attribute order and values, text and CDATA, at every depth.
   */
  lemma ParsePrint(doc: seq<Node>)
    requires ValidDocument(doc) && NamespacesPass(doc)
    ensures Parse(PrintDocument(doc)) == Document(doc, TagsOf(doc))
  {
    hide Parse, PrintDocument, SoundNodes, ValidNodes, WithoutBlank, WalkNodes;
    ValidIffKept(doc);
    ParseSound(doc);
  }
}
