/**
 * The printer, the deep clone and the parser together: which documents survive printing and parsing, and the
 * same on the linked tree.
 */
module EndToEnd {
  import opened CStrings
  import opened XmlTree
  import opened Printer
  import opened Clone
  import opened DomBuilder
  import opened XmlParser
  import opened Namespaces
  import opened NamespaceWalk
  import opened PrintInjective
  import opened RoundTrip
  import opened Sources
  import opened SourceDocument
  import Lexer
  import opened ParserInvariant
  import opened ParsedNodes
  import opened AcceptedNamespaces
  import opened TokenLemmas
  import D = Dom
  import P = Parser

  // ---- which documents survive ----

  lemma {:induction false} ClonedSound(ts: seq<Node>)
    requires SoundLeaves(ts) && CleanNodes(ts)
    ensures SoundNodes(Cloned(ts, true))
  {
    hide ValidName, Escape.WellFormed, ValidCData, DistinctAttrs;
    if ts != [] && ts[0].Element? {
      ClonedSound(ts[0].children);
      ClonedSound(ts[1..]);
      assert Cloned(ts, true)[1..] == Cloned(ts[1..], true);
    }
  }

  /** What the parser answers when the walk over the namespaces has come to w. */
  function Answer(w: Walked, kept: seq<Node>): P.ParseResult {
    match w
    case Passed(_) => P.Document(kept, TagsOf(kept))
    case Refusal => P.SyntaxError
    case NullRead => P.NullDereference
  }

  /**
   * Printing and parsing a document of one element with sound contents cuts every row of siblings off
   * behind its first text or CDATA node, drops blank text, and changes nothing else; or the parser stops at a
   * namespace.
   */
  lemma PrintParseNormalises(doc: seq<Node>)
    requires |doc| == 1 && doc[0].Element? && SoundLeaves(doc) && CleanNodes(doc)
    ensures var c := Cloned(doc, true);
            P.Parse(PrintDocument(doc)) == Answer(WalkNodes(Scopes([], None), c), WithoutBlank(c))
  {
    hide SoundLeaves, CleanNodes, SoundNodes, PrintDocument, P.Parse, WithoutBlank, WalkNodes;
    ClonedSound(doc);
    ClonePrintsSame(doc);
    OneCloned(doc);
    ParseSound(Cloned(doc, true));
  }

  lemma OneCloned(doc: seq<Node>)
    requires |doc| == 1 && doc[0].Element?
    ensures |Cloned(doc, true)| == 1 && Cloned(doc, true)[0].Element?
  {
  }

  /** The document node alone is printed as the prolog, and nothing is read behind it. */
  lemma EmptySurvives()
    ensures P.Parse(PrintDocument([])) == P.Document([], [])
  {
    hide P.GetNextNode;
    NothingPrinted();
    assert P.GetNextNode(P.InitialState([])).FileDone?;
  }

  lemma NothingPrinted()
    ensures Lexer.SkipProlog(PrintDocument([])) == Some([])
  {
    hide Lexer.SkipString;
    // version="1.0"
    var text: Bytes := [0x76, 0x65, 0x72, 0x73, 0x69, 0x6F, 0x6E, 0x3D, 0x22, 0x31, 0x2E, 0x30, 0x22];
    DeclarationIs();
    DeclarationSkipped(text, [0x0D, 0x0A]);
    assert PrintNodes([]) == [] && PROLOG + [] == PROLOG;
    assert SkipWhite(PROLOG) == PROLOG by {
      assert PROLOG[0] == 0x3C;
    }
    SkipWhiteRun([0x0D, 0x0A], []);
    assert [0x0D, 0x0A] + [] == [0x0D, 0x0A];
  }

  /** Parsing the printed form of a valid document returns it, unless a namespace stops the parser. */
  lemma ValidRead(doc: seq<Node>)
    requires ValidDocument(doc)
    ensures P.Parse(PrintDocument(doc)) == Answer(WalkNodes(Scopes([], None), doc), doc)
  {
    hide SoundNodes, ValidNodes, PrintDocument, P.Parse, WithoutBlank, WalkNodes;
    ValidIffKept(doc);
    ParseSound(doc);
  }

  /**
   * A document survives printing and parsing if and only if it is empty, or valid with namespaces that the
   * parser can follow.
   */
  lemma SurvivesIff(doc: seq<Node>)
    ensures P.Parse(PrintDocument(doc)) == P.Document(doc, TagsOf(doc)) <==>
            doc == [] || (ValidDocument(doc) && NamespacesPass(doc))
    ensures P.Parse(PrintDocument(doc)).Document? && P.Parse(PrintDocument(doc)).children == doc <==>
            doc == [] || (ValidDocument(doc) && NamespacesPass(doc))
  {
    hide SoundLeaves, CleanNodes, SoundNodes, ValidNodes, PrintDocument, P.Parse, WithoutBlank, Cloned, WalkNodes;
    var r := P.Parse(PrintDocument(doc));
    EmptySurvives();
    if doc != [] && r.Document? && r.children == doc {
      AcceptedDocument(PrintDocument(doc));
      AcceptedSound(PrintDocument(doc));
      PrintParseNormalises(doc);
      ClonedSound(doc);
      ValidIffKept(Cloned(doc, true));
    }
    if ValidDocument(doc) {
      ValidRead(doc);
    }
  }

  lemma {:induction false} ValidTextsLast(nodes: seq<Node>)
    requires ValidNodes(nodes)
    ensures TextsLast(nodes)
  {
    hide ValidName, ValidAttrs, Escape.WellFormed, ValidCData;
    if nodes != [] && nodes[0].Element? {
      ValidTextsLast(nodes[0].children);
      ValidTextsLast(nodes[1..]);
    }
  }

  /**
   * Whatever bytes were parsed: printing what the parser accepted and parsing again gives the same if and only if
   * no text or CDATA node has a following sibling and no text is blank. Names, values and namespaces never matter.
   */
  lemma AcceptedSurvivesIff(input: Bytes)
    requires P.Parse(input).Document?
    ensures var doc := P.Parse(input).children;
            P.Parse(PrintDocument(doc)) == P.Parse(input) <==> TextsLast(doc) && WithoutBlank(doc) == doc
  {
    hide P.Parse, PrintDocument, SoundLeaves, CleanNodes, SoundNodes, ValidNodes, Cloned, NamespacesPass, TextsLast;
    var doc := P.Parse(input).children;
    AcceptedDocument(input);
    AcceptedSound(input);
    AcceptedPasses(input);
    SurvivesIff(doc);
    ValidIffKept(doc);
    ClonedIff(doc);
    ClonedSound(doc);
    if ValidNodes(doc) {
      ValidTextsLast(doc);
    }
    if doc == [] {
      EmptyKept();
    }
  }

  lemma EmptyKept()
    ensures TextsLast([]) && WithoutBlank([]) == []
  {
  }

  /** Every valid document survives in which each element prefix is declared by the element or one around it. */
  lemma DeclaredSurvives(doc: seq<Node>)
    requires ValidDocument(doc) && WellPrefixed(doc, {})
    ensures P.Parse(PrintDocument(doc)) == P.Document(doc, TagsOf(doc))
  {
    hide ValidDocument, WellPrefixed, PrintDocument, P.Parse;
    WellPrefixedPasses(Scopes([], None), doc, {});
    SurvivesIff(doc);
  }

  lemma SomeNames()
    ensures ValidName(ROOT) && ValidName(NAME_X) && ValidName(XMLNS) && ValidName(XMLNS + COLON + NAME_C)
    ensures ValidName(NAME_C) && ValidName(NAME_A_B) && ValidName(NAME_C_D)
  {
    hide NameTail, ValidName;
    NothingValid();
    RootName();
    AsciiTail(0x78, []);
    AsciiTail(0x62, []);
    AsciiTail(0x63, []);
    AsciiTail(0x64, []);
    assert [0x78] + [] == NAME_X && [0x63] + [] == NAME_C && [0x62] + [] == [0x62] && [0x64] + [] == [0x64];
    AsciiTail(0x3A, [0x62]);
    AsciiTail(0x3A, [0x64]);
    AsciiTail(0x61, [0x3A] + [0x62]);
    AsciiTail(0x63, [0x3A] + [0x64]);
    assert [0x61] + ([0x3A] + [0x62]) == NAME_A_B && [0x63] + ([0x3A] + [0x64]) == NAME_C_D;
    DeclNameValid(NAME_C);
    XmlnsName();
  }

  lemma NothingValid()
    ensures NameTail([])
  {
  }

  lemma XmlnsName()
    ensures ValidName(XMLNS)
  {
    hide NameTail, ValidName;
    NothingValid();
    AsciiTail(0x73, []);
    AsciiTail(0x6E, [0x73] + []);
    AsciiTail(0x6C, [0x6E] + ([0x73] + []));
    AsciiTail(0x6D, [0x6C] + ([0x6E] + ([0x73] + [])));
    AsciiTail(0x78, [0x6D] + ([0x6C] + ([0x6E] + ([0x73] + []))));
    assert [0x78] + ([0x6D] + ([0x6C] + ([0x6E] + ([0x73] + [])))) == XMLNS;
  }

  lemma UndeclaredValid(decl: Bytes, inner: Bytes)
    requires ValidName(ROOT) && ValidName(NAME_X) && ValidName(NAME_A_B) && ValidName(decl) && ValidName(inner)
    ensures ValidDocument(Undeclared(decl, inner))
  {
    hide ValidName;
    var doc := Undeclared(decl, inner);
    var y := doc[0].children;
    assert doc[1..] == [] && y[1..] == [] && y[0].children[1..] == [];
    assert ValidNodes(y[0].children);
    assert ValidNodes(y);
  }

  /** Valid documents that do not survive: an undeclared prefix stops the parser at an attribute further inside. */
  lemma UndeclaredLost()
    ensures P.Parse(PrintDocument(Undeclared(XMLNS + COLON + NAME_C, NAME_C_D))) == P.SyntaxError
    ensures P.Parse(PrintDocument(Undeclared(XMLNS, NAME_C))) == P.NullDereference
  {
    hide ValidDocument, PrintDocument, P.Parse, WalkNodes, Undeclared, ValidName;
    SomeNames();
    UndeclaredValid(XMLNS + COLON + NAME_C, NAME_C_D);
    UndeclaredValid(XMLNS, NAME_C);
    ValidRead(Undeclared(XMLNS + COLON + NAME_C, NAME_C_D));
    ValidRead(Undeclared(XMLNS, NAME_C));
    UndeclaredStops();
  }

  // ---- on the linked tree ----

  /** Printing the linked tree of a valid document and parsing the bytes builds a new linked tree of the same document. */
  method PrintThenParse(doc: D.Node, ghost ts: seq<Node>, ghost s: set<D.Node>) returns (code: Code, parser: XmlParser)
    requires doc.nodeType == D.DocumentNode && Shows(doc.firstChild, ts, s) && ValidDocument(ts)
    ensures fresh(parser.dom.nodes)
    ensures code == match WalkNodes(Scopes([], None), ts)
                    case Passed(_) => Done
                    case Refusal => Failed
                    case NullRead => NullAccess
    ensures code == Done ==>
              && parser.dom.Valid(ts, []) && parser.dom.gRootDoc.nodeType == D.DocumentNode
              && Shows(parser.dom.gRootDoc.firstChild, ts, parser.dom.nodes)
  {
    hide Shows, ValidDocument, P.Parse, Builder.Valid, PrintDocument;
    var buf := PrintDocumentNode(doc, ts, s);
    var text := buf.Text();
    parser := new XmlParser(text);
    code := parser.ParseDocument(PrintDocument(ts));
    ValidRead(ts);
  }

  /** The same through a deep clone. */
  method CloneThenPrintThenParse(doc: D.Node, ghost ts: seq<Node>, ghost s: set<D.Node>) returns (code: Code, parser: XmlParser)
    requires doc.nodeType == D.DocumentNode && Shows(doc.firstChild, ts, s) && ValidDocument(ts)
    ensures fresh(parser.dom.nodes)
    ensures code == match WalkNodes(Scopes([], None), ts)
                    case Passed(_) => Done
                    case Refusal => Failed
                    case NullRead => NullAccess
    ensures code == Done ==>
              && parser.dom.Valid(ts, []) && parser.dom.gRootDoc.nodeType == D.DocumentNode
              && Shows(parser.dom.gRootDoc.firstChild, ts, parser.dom.nodes)
  {
    hide Shows, ValidDocument, P.Parse, Builder.Valid, PrintDocument, Describes, Wired, PrintNodes;
    var copy;
    ghost var r, m;
    copy, r, m := CloneNodeTree(doc, true, ts, s);
    ghost var c := Cloned(ts, true);
    var buf := PrintDocumentNode(copy, c, r);
    ClonePrintsSame(ts);
    var text := buf.Text();
    parser := new XmlParser(text);
    code := parser.ParseDocument(PrintDocument(ts));
    ValidRead(ts);
  }

  lemma ClonePrintsSame(ts: seq<Node>)
    ensures PrintDocument(Cloned(ts, true)) == PrintDocument(ts)
  {
    PrintCloned(ts);
  }
}
