/**
 * Whole documents as they can be written, with declaration, comments, instructions and document type in front of the
 * root element, and what the parser makes of them.
 */
module SourceDocument {
  import opened CStrings
  import opened Escape
  import opened XmlTree
  import opened Lexer
  import opened Namespaces
  import opened NamespaceWalk
  import opened Parser
  import opened ParserInvariant
  import opened TokenLemmas
  import opened Sources
  import opened SourceSteps
  import opened SourceRead

  /** A comment or an instruction in front of the root, with the gap behind it. */
  datatype Misc = Remark(text: Bytes, gap: Bytes) | Command(text: Bytes, gap: Bytes)

  /** What stands in a document type declaration: bytes other than `<`, `>` and `"`, a string, or `<...>`. */
  datatype Item = Run(bytes: Bytes) | Quoted(bytes: Bytes) | Nested(items: seq<Item>)

  /** The text of an XML declaration, and the gap behind it. */
  datatype Declaration = Declaration(text: Bytes, gap: Bytes)

  datatype DocType = DocType(items: seq<Item>, gap: Bytes, misc: seq<Misc>)

  datatype Source = Source(gap: Bytes, decl: Option<Declaration>, misc: seq<Misc>, docType: Option<DocType>,
                           root: Part, epilogue: seq<Part>)

  // ---- the bytes ----

  function AsPart(m: Misc): Part {
    if m.Remark? then Comment(m.text) else Instruction(m.text)
  }

  function MiscBytes(ms: seq<Misc>, t: Bytes): Bytes {
    if ms == [] then t else PartBytes(AsPart(ms[0]), ms[0].gap + MiscBytes(ms[1..], t))
  }

  function ItemsBytes(items: seq<Item>, t: Bytes): Bytes
    decreases items
  {
    if items == [] then t
    else
      var rest := ItemsBytes(items[1..], t);
      match items[0]
      case Run(b) => b + rest
      case Quoted(b) => [0x22] + (b + ([0x22] + rest))
      case Nested(inner) => [0x3C] + ItemsBytes(inner, [0x3E] + rest)
  }

  /** The root and what stands behind it. */
  function RootBytes(d: Source): Bytes {
    PartBytes(d.root, PartsBytes(d.epilogue, []))
  }

  /** `<!DOCTYPE`, the items, and `>` */
  function TypeBytes(y: DocType, t: Bytes): Bytes {
    [0x3C, 0x21, 0x44, 0x4F, 0x43, 0x54, 0x59, 0x50, 0x45]
    + ItemsBytes(y.items, [0x3E] + (y.gap + MiscBytes(y.misc, t)))
  }

  function BodyBytes(d: Source): Bytes {
    MiscBytes(d.misc, if d.docType.Some? then TypeBytes(d.docType.value, RootBytes(d)) else RootBytes(d))
  }

  function SourceBytes(d: Source): Bytes {
    d.gap +
    if d.decl.Some? then
      [0x3C, 0x3F, 0x78, 0x6D, 0x6C, 0x20] + (d.decl.value.text + ([0x3F, 0x3E] + (d.decl.value.gap + BodyBytes(d))))
    else BodyBytes(d)
  }

  // ---- what can be written ----

  predicate CorrectMisc(ms: seq<Misc>) {
    forall i | 0 <= i < |ms| :: CorrectPart(AsPart(ms[i])) && Gap(ms[i].gap)
  }

  predicate CorrectItems(items: seq<Item>)
    decreases items
  {
    items == [] ||
    (CorrectItems(items[1..]) &&
     match items[0]
     case Run(b) => forall i | 0 <= i < |b| :: b[i] !in {0x3C, 0x3E, 0x22}
     case Quoted(b) => forall i | 0 <= i < |b| :: b[i] != 0x22
     case Nested(inner) => CorrectItems(inner))
  }

  predicate CorrectType(y: DocType) {
    CorrectItems(y.items) && Gap(y.gap) && CorrectMisc(y.misc)
  }

  predicate CorrectSource(d: Source) {
    && Gap(d.gap)
    && (d.decl.Some? ==>
          && Gap(d.decl.value.gap)
          && forall i | 0 <= i < |d.decl.value.text| - 1 :: d.decl.value.text[i] != 0x3F || d.decl.value.text[i + 1] != 0x3E)
    && CorrectMisc(d.misc)
    && (d.docType.Some? ==> CorrectType(d.docType.value))
    && d.root.Tag? && CorrectPart(d.root)
    && CorrectParts(d.epilogue)
    && forall i | 0 <= i < |d.epilogue| :: d.epilogue[i].Comment? || d.epilogue[i].Instruction? || d.epilogue[i].Blank?
  }

  // ---- in front of the root ----

  /** Nothing is skipped at s. */
  predicate Solid(s: Bytes) {
    s != [] && !IsWhite(s[0]) && SkipMisc(s) == (true, s)
  }

  lemma {:induction false} SolidStart(s: Bytes)
    requires StartsToken(s)
    ensures Solid(s)
  {
    hide SkipMisc;
    GapSkipped([], s);
    assert [] + s == s;
  }

  lemma {:induction false} SkipGap(w: Bytes, s: Bytes)
    requires Gap(w) && s != [] && !IsWhite(s[0])
    ensures SkipWhite(w + s) == s
  {
    GapWhite(w);
    SkipWhiteRun(w, s);
  }

  lemma {:induction false} MiscStart(ms: seq<Misc>, t: Bytes)
    requires t != [] && !IsWhite(t[0])
    ensures MiscBytes(ms, t) != [] && !IsWhite(MiscBytes(ms, t)[0])
  {
    if ms != [] {
      assert MiscBytes(ms, t)[0] == 0x3C;
    }
  }

  /** Comments and instructions in front of s are skipped. */
  lemma {:induction false} MiscSkipped(ms: seq<Misc>, s: Bytes)
    requires CorrectMisc(ms) && Solid(s)
    ensures SkipMisc(MiscBytes(ms, s)) == (true, s)
    decreases |ms|
  {
    hide CorrectPart, SkipMisc, PartBytes;
    if ms != [] {
      var next := MiscBytes(ms[1..], s);
      MiscSkipped(ms[1..], s);
      MiscStart(ms[1..], s);
      SkipGap(ms[0].gap, next);
      OneMisc(ms[0], ms[0].gap + next);
    }
  }

  lemma {:induction false} OneMisc(m: Misc, t: Bytes)
    requires CorrectPart(AsPart(m))
    ensures SkipMisc(PartBytes(AsPart(m), t)) == SkipMisc(SkipWhite(t))
  {
    hide Find, SkipWhite, IsXmlDecl, PartBytes;
    var s := PartBytes(AsPart(m), t);
    if m.Remark? {
      CommentBegins(m.text, t);
      CommentEnd(m.text, t);
    } else {
      InstructionBegins(m.text, t);
      InstructionEnd(m.text, t);
    }
  }

  lemma {:induction false} CommentBegins(c: Bytes, t: Bytes)
    ensures StartsWithNoCase(PartBytes(Comment(c), t), BEGIN_COMMENT)
  {
    assert PartBytes(Comment(c), t)[..4] == BEGIN_COMMENT;
  }

  lemma {:induction false} InstructionBegins(c: Bytes, t: Bytes)
    ensures StartsWithNoCase(PartBytes(Instruction(c), t), BEGIN_PI)
    ensures !StartsWithNoCase(PartBytes(Instruction(c), t), BEGIN_COMMENT)
  {
    var s := PartBytes(Instruction(c), t);
    assert s[..2] == BEGIN_PI;
    assert Lower(s[1]) != Lower(BEGIN_COMMENT[1]);
  }

  // ---- document type declarations ----

  lemma {:induction false} RunSkipped(b: Bytes, t: Bytes, n: nat)
    requires n > 0 && forall i | 0 <= i < |b| :: b[i] !in {0x3C, 0x3E, 0x22}
    ensures SkipDocType(b + t, n) == SkipDocType(t, n)
    decreases |b|
  {
    if b == [] {
      assert b + t == t;
    } else {
      assert (b + t)[1..] == b[1..] + t;
      assert forall i | 0 <= i < |b[1..]| :: b[1..][i] == b[i + 1];
      RunSkipped(b[1..], t, n);
    }
  }

  lemma {:induction false} StringSkipped(b: Bytes, t: Bytes, n: nat)
    requires n > 0 && forall i | 0 <= i < |b| :: b[i] != 0x22
    ensures SkipDocType([0x22] + (b + ([0x22] + t)), n) == SkipDocType(t, n)
  {
    var s := [0x22] + (b + ([0x22] + t));
    var u := b + [0x22] + t;
    assert s[1..] == u;
    forall i | 0 <= i < |b|
      ensures !([0x22] <= u[i..])
    {
      assert u[i..][0] == b[i];
    }
    FindAt(b, [0x22], t);
    assert u[|b| + 1..] == t;
  }

  /** The items of the declaration are skipped, however deep the brackets nest. */
  lemma {:induction false} ItemsSkipped(items: seq<Item>, t: Bytes, n: nat)
    requires n > 0 && CorrectItems(items)
    ensures SkipDocType(ItemsBytes(items, t), n) == SkipDocType(t, n)
    decreases items
  {
    if items != [] {
      var rest := ItemsBytes(items[1..], t);
      ItemsSkipped(items[1..], t, n);
      match items[0]
      case Run(b) => RunSkipped(b, rest, n);
      case Quoted(b) => StringSkipped(b, rest, n);
      case Nested(inner) =>
        ItemsSkipped(inner, [0x3E] + rest, n + 1);
        assert ([0x3C] + ItemsBytes(inner, [0x3E] + rest))[1..] == ItemsBytes(inner, [0x3E] + rest);
        assert ([0x3E] + rest)[1..] == rest;
    }
  }

  lemma {:induction false} TypeSkipped(y: DocType, t: Bytes)
    requires CorrectType(y)
    ensures var u := TypeBytes(y, t);
            BEGIN_DOCTYPE <= u && Solid(u) && SkipDocType(u[1..], 1) == Some(y.gap + MiscBytes(y.misc, t))
  {
    hide ItemsBytes, MiscBytes, CorrectItems, SkipMisc;
    var u, rest := TypeBytes(y, t), y.gap + MiscBytes(y.misc, t);
    var name: Bytes := [0x21, 0x44, 0x4F, 0x43, 0x54, 0x59, 0x50, 0x45];
    assert u[..9] == BEGIN_DOCTYPE;
    assert u[1..] == name + ItemsBytes(y.items, [0x3E] + rest);
    RunSkipped(name, ItemsBytes(y.items, [0x3E] + rest), 1);
    ItemsSkipped(y.items, [0x3E] + rest, 1);
    assert ([0x3E] + rest)[1..] == rest;
    TypeSolid(u);
  }

  lemma {:induction false} TypeSolid(u: Bytes)
    requires BEGIN_DOCTYPE <= u
    ensures Solid(u)
  {
    assert u[0] == 0x3C && u[1] == 0x21 && u[2] == 0x44;
    assert Lower(u[2]) != Lower(BEGIN_COMMENT[2]) && Lower(u[1]) != Lower(BEGIN_PI[1]);
    assert Lower(u[1]) != Lower(XMLDECL[1]) && Lower(u[1]) != Lower(XMLDECL2[1]);
  }

  // ---- the prolog ----

  lemma {:induction false} DeclarationSkipped(text: Bytes, t: Bytes)
    requires forall i | 0 <= i < |text| - 1 :: text[i] != 0x3F || text[i + 1] != 0x3E
    ensures var s := [0x3C, 0x3F, 0x78, 0x6D, 0x6C, 0x20] + (text + ([0x3F, 0x3E] + t));
            XMLDECL <= s && SkipString(s, END_PI) == Some(t)
  {
    hide Find;
    var q := [0x3C, 0x3F, 0x78, 0x6D, 0x6C, 0x20] + text;
    var s := q + END_PI + t;
    assert s == [0x3C, 0x3F, 0x78, 0x6D, 0x6C, 0x20] + (text + ([0x3F, 0x3E] + t));
    assert s[..6] == XMLDECL && s[6..|text| + 6] == text && s[|text| + 6] == 0x3F;
    forall i | 0 <= i < |q|
      ensures !(END_PI <= s[i..])
    {
      NoDeclarationEnd(text, s, i);
      assert s[i..][0] == s[i] && s[i..][1] == s[i + 1];
    }
    FindAt(q, END_PI, t);
    assert s[|q| + 2..] == t;
  }

  lemma {:induction false} NoDeclarationEnd(text: Bytes, s: Bytes, i: nat)
    requires forall k | 0 <= k < |text| - 1 :: text[k] != 0x3F || text[k + 1] != 0x3E
    requires |s| >= |text| + 8 && s[..6] == [0x3C, 0x3F, 0x78, 0x6D, 0x6C, 0x20]
    requires s[6..|text| + 6] == text && s[|text| + 6] == 0x3F && i < |text| + 6
    ensures s[i] != 0x3F || s[i + 1] != 0x3E
  {
    assert forall k | 0 <= k < 6 :: s[k] == s[..6][k];
    assert forall k | 6 <= k < |text| + 6 :: s[k] == text[k - 6] by {
      assert forall k | 6 <= k < |text| + 6 :: s[k] == s[6..|text| + 6][k - 6];
    }
  }

  lemma {:induction false} RootSolid(d: Source)
    requires CorrectSource(d)
    ensures Solid(RootBytes(d)) && !(BEGIN_DOCTYPE <= RootBytes(d))
  {
    hide SkipMisc, PartBytes, PartsBytes, CorrectPart;
    TagStart(d.root, PartsBytes(d.epilogue, []));
    SolidStart(RootBytes(d));
  }

  lemma {:induction false} BodySolid(d: Source)
    requires CorrectSource(d)
    ensures BodyBytes(d) != [] && !IsWhite(BodyBytes(d)[0]) && (d.decl.None? ==> !(XMLDECL <= BodyBytes(d)))
  {
    hide SkipMisc, PartBytes, CorrectPart, CorrectType;
    RootSolid(d);
    if d.docType.Some? {
      TypeSkipped(d.docType.value, RootBytes(d));
      MiscNoDeclaration(d.misc, TypeBytes(d.docType.value, RootBytes(d)));
    } else {
      MiscNoDeclaration(d.misc, RootBytes(d));
    }
  }

  lemma {:induction false} MiscNoDeclaration(ms: seq<Misc>, t: Bytes)
    requires CorrectMisc(ms) && Solid(t)
    ensures MiscBytes(ms, t) != [] && !IsWhite(MiscBytes(ms, t)[0]) && !(XMLDECL <= MiscBytes(ms, t))
  {
    var s := MiscBytes(ms, t);
    MiscStart(ms, t);
    assert ms != [] ==> CorrectPart(AsPart(ms[0]));
    if ms == [] {
      if XMLDECL <= t {
        DeclarationNotSkipped(t);
        assert false;
      }
    } else if ms[0].Remark? {
      assert s[1] == 0x21;
    } else {
      InstructionEnd(ms[0].text, ms[0].gap + MiscBytes(ms[1..], t));
      if XMLDECL <= s {
        assert StartsWithNoCase(s, XMLDECL);
        assert false;
      }
    }
  }

  lemma {:induction false} DeclarationNotSkipped(t: Bytes)
    requires XMLDECL <= t
    ensures SkipMisc(t).0 == false
  {
    assert StartsWithNoCase(t, XMLDECL);
    assert Lower(t[1]) != Lower(BEGIN_COMMENT[1]);
  }

  /** Everything in front of the root is skipped, but for comments and instructions behind the document type. */
  lemma {:induction false} PrologSkipped(d: Source) returns (ms: seq<Misc>)
    requires CorrectSource(d)
    ensures CorrectMisc(ms) && SkipProlog(SourceBytes(d)) == Some(MiscBytes(ms, RootBytes(d)))
  {
    hide SkipMisc, SkipWhite, PartBytes, PartsBytes, CorrectPart, CorrectType, MiscBytes, RootBytes, TypeBytes, SkipString,
         SkipDocType;
    var body, root := BodyBytes(d), RootBytes(d);
    BodySolid(d);
    RootSolid(d);
    FrontSkipped(d);
    if d.docType.Some? {
      var y := d.docType.value;
      TypeSkipped(y, root);
      MiscSkipped(d.misc, TypeBytes(y, root));
      ms := BehindType(y, root);
    } else {
      MiscSkipped(d.misc, root);
      ms := [];
      NoMiscBytes(root);
    }
  }

  lemma {:induction false} NoMiscBytes(t: Bytes)
    ensures MiscBytes([], t) == t && CorrectMisc([])
  {
  }

  /** The gap and the declaration. */
  lemma {:induction false} FrontSkipped(d: Source)
    requires CorrectSource(d)
    ensures var s := SkipWhite(SourceBytes(d));
            if d.decl.Some? then XMLDECL <= s && SkipString(s, END_PI).Some? && SkipWhite(SkipString(s, END_PI).value) == BodyBytes(d)
            else !(XMLDECL <= s) && s == BodyBytes(d)
  {
    hide SkipWhite, BodyBytes, SkipString, CorrectPart, CorrectMisc, CorrectType;
    var body := BodyBytes(d);
    BodySolid(d);
    if d.decl.Some? {
      var e := d.decl.value;
      DeclarationSkipped(e.text, e.gap + body);
      SkipGap(d.gap, [0x3C, 0x3F, 0x78, 0x6D, 0x6C, 0x20] + (e.text + ([0x3F, 0x3E] + (e.gap + body))));
      SkipGap(e.gap, body);
    } else {
      SkipGap(d.gap, body);
    }
  }

  /** Behind the document type comments and instructions are skipped if there is no gap in front of them. */
  lemma {:induction false} BehindType(y: DocType, root: Bytes) returns (ms: seq<Misc>)
    requires CorrectType(y) && Solid(root)
    ensures CorrectMisc(ms) && SkipMisc(y.gap + MiscBytes(y.misc, root)) == (true, MiscBytes(ms, root))
  {
    hide SkipMisc, MiscBytes, CorrectItems;
    var rest := MiscBytes(y.misc, root);
    MiscStart(y.misc, root);
    if y.gap == [] {
      assert y.gap + rest == rest;
      MiscSkipped(y.misc, root);
      ms := [];
      NoMiscBytes(root);
    } else {
      GapWhite(y.gap);
      SkipGap(y.gap, rest);
      WhiteFirst(y.gap + rest);
      ms := y.misc;
    }
  }

  lemma {:induction false} WhiteFirst(s: Bytes)
    requires s != [] && IsWhite(s[0])
    ensures SkipMisc(s) == (true, SkipWhite(s))
  {
  }

  /** The first token is the same with comments and instructions in front of it. */
  lemma {:induction false} MiscInFront(ms: seq<Misc>, root: Bytes)
    requires CorrectMisc(ms) && Solid(root)
    ensures ParseLoop(InitialState(MiscBytes(ms, root))) == ParseLoop(InitialState(root))
  {
    hide SkipMisc, MiscBytes, TokenLength, CopyToken, AfterToken, CorrectPart;
    var s := MiscBytes(ms, root);
    MiscSkipped(ms, root);
    MiscStart(ms, root);
    assert GetNextToken(s) == GetNextToken(root);
    NotSkipped(s);
    NotSkipped(root);
    NextTokenIs(InitialState(s), GetNextToken(root));
    NextTokenIs(InitialState(root), GetNextToken(root));
    assert GetNextNode(InitialState(s)) == GetNextNode(InitialState(root)) by {
      hide GetNextToken;
      SameDispatch(InitialState(s), InitialState(root));
    }
    hide GetNextNode;
  }

  lemma {:induction false} NotSkipped(s: Bytes)
    requires s != [] && !IsWhite(s[0])
    ensures SkipWhite(s) == s
  {
  }

  lemma {:induction false} SameDispatch(p: State, q: State)
    requires !p.mode.ContentMode? && q == p.(rest := q.rest) && p.rest != [] && q.rest != []
    requires SkipWhite(p.rest) == p.rest && SkipWhite(q.rest) == q.rest && NextToken(p) == NextToken(q)
    ensures GetNextNode(p) == GetNextNode(q)
  {
    hide NextToken, SkipWhite, ProcessSTag, ProcessETag, ProcessAttribute;
    assert p.(rest := p.rest) == p && q.(rest := q.rest) == q;
  }

  // ---- behind the root ----

  /** Behind the root comments, instructions and gaps are skipped, up to the end of the input. */
  lemma {:induction false} EpilogueRead(p: State, w: Bytes, parts: seq<Part>)
    requires p.mode.ContentMode? && p.stack == [] && AllWhite(w) && CorrectParts(parts)
    requires forall i | 0 <= i < |parts| :: parts[i].Comment? || parts[i].Instruction? || parts[i].Blank?
    requires parts != [] && IsText(parts[0]) ==> w == []
    requires p.rest == w + PartsBytes(parts, [])
    ensures ParseLoop(p) == Document(p.doc, p.tags)
    decreases |parts|
  {
    hide GetNextNode, ParseLoop, PartBytes, CorrectPart;
    if parts == [] {
      assert p.rest == w;
      FinishRead(p);
    } else {
      var q, w' := SkippedRead(p, w, parts[0], PartsBytes(parts[1..], []));
      EpilogueRead(q, w', parts[1..]);
    }
  }

  lemma {:induction false} FinishRead(p: State)
    requires p.mode.ContentMode? && p.stack == [] && AllWhite(p.rest)
    ensures ParseLoop(p) == Document(p.doc, p.tags)
  {
    hide GetNextNode;
    if p.rest == [] {
      assert GetNextNode(p).FileDone?;
    } else {
      FinalWhite(p);
      var q := OneRound(p);
      assert GetNextNode(q).FileDone?;
    }
  }

  // ---- the whole document ----

  /**
   * Every document of the grammar is read as the document it stands for, or the parse ends as the walk over its
   * namespaces does.
   */
  lemma {:induction false} DocumentRead(d: Source)
    requires CorrectSource(d)
    ensures var nodes := Nodes([d.root]);
            Parse(SourceBytes(d)) == match WalkNodes(Scopes([], None), nodes)
                                     case Passed(_) => Document(nodes, TagsOf(nodes))
                                     case Refusal => SyntaxError
                                     case NullRead => NullDereference
  {
    hide GetNextNode, ParseLoop, SkipProlog, PartBytes, PartsBytes, CorrectPart, WalkNodes, Nodes;
    var nodes, rest := Nodes([d.root]), PartsBytes(d.epilogue, []);
    var ms := PrologSkipped(d);
    RootSolid(d);
    MiscInFront(ms, RootBytes(d));
    var p := InitialState(RootBytes(d));
    var q := TagRead(p, d.root, rest);
    if WalkNodes(Scopes([], None), nodes).Passed? {
      assert [] + [nodes[0]] == nodes;
      assert [] + rest == rest;
      EpilogueRead(q, [], d.epilogue);
      AcceptedDocument(SourceBytes(d));
    }
  }

  // ---- empty-element tags ----

  /** The same parts with a start tag and an end tag for every empty-element tag. */
  function Opened(parts: seq<Part>): (r: seq<Part>)
    ensures |r| == |parts|
  {
    if parts == [] then []
    else
      [match parts[0]
       case Tag(name, attrs, gap, body) =>
         Tag(name, attrs, gap, if body.Empty? then Filled([], []) else Filled(Opened(body.content), body.gap))
       case part => part]
      + Opened(parts[1..])
  }

  lemma {:induction false} OpenedAlike(parts: seq<Part>)
    requires CorrectParts(parts)
    ensures CorrectParts(Opened(parts)) && Nodes(Opened(parts)) == Nodes(parts)
    ensures forall i | 0 <= i < |parts| :: IsText(Opened(parts)[i]) == IsText(parts[i])
    decreases parts
  {
    hide ValidName, CorrectAttrs, CorrectChars, ValidCData, CorrectComment, CorrectInstruction, MeantAttrs;
    if parts != [] {
      OpenedAlike(parts[1..]);
      assert Opened(parts)[1..] == Opened(parts[1..]);
      assert IsText(Opened(parts)[0]) == IsText(parts[0]);
      if parts[0].Tag? && parts[0].body.Filled? {
        OpenedAlike(parts[0].body.content);
      } else {
        assert Nodes([]) == [] && CorrectParts([]) && Gap([]);
      }
      forall i | 0 < i < |parts|
        ensures IsText(Opened(parts)[i]) == IsText(parts[i])
      {
        assert Opened(parts)[i] == Opened(parts[1..])[i - 1] && parts[i] == parts[1..][i - 1];
      }
      assert CorrectPart(parts[0]) ==> CorrectPart(Opened(parts)[0]);
    }
  }

  /** Wherever a tag `<name/>` stands, it is read as `<name></name>` is. */
  lemma {:induction false} EmptyTagsAgree(d: Source)
    requires CorrectSource(d)
    ensures var e := d.(root := Opened([d.root])[0]);
            CorrectSource(e) && Parse(SourceBytes(e)) == Parse(SourceBytes(d))
  {
    hide Parse, SourceBytes, CorrectPart, Opened, Nodes;
    OneCorrect(d.root);
    OpenedAlike([d.root]);
    OneOpened(d.root);
    DocumentRead(d);
    DocumentRead(d.(root := Opened([d.root])[0]));
  }

  lemma {:induction false} OneCorrect(part: Part)
    requires CorrectPart(part)
    ensures CorrectParts([part])
  {
    hide CorrectPart;
    assert [part][1..] == [];
  }

  lemma {:induction false} OneOpened(part: Part)
    requires part.Tag?
    ensures Opened([part])[0].Tag? && Opened([part]) == [Opened([part])[0]]
    ensures CorrectParts(Opened([part])) ==> CorrectPart(Opened([part])[0])
  {
    hide CorrectPart;
  }

  /** `<name/>` alone is a document with one empty element. */
  lemma {:induction false} EmptyElement(name: Bytes)
    requires ValidName(name)
    ensures Parse([0x3C] + (name + [0x2F, 0x3E])) == Document([Element(name, [], [])], [Open(name), Close(name)])
  {
    hide Parse, WalkNodes, ValidName;
    var root := Tag(name, [], [], Empty);
    var d := Source([], None, [], None, root, []);
    DocumentRead(d);
    TagNode(root);
    BareWalk(name);
    BareBytes(name);
    assert [Element(name, [], [])][1..] == [];
  }

  lemma {:induction false} BareBytes(name: Bytes)
    ensures SourceBytes(Source([], None, [], None, Tag(name, [], [], Empty), [])) == [0x3C] + (name + [0x2F, 0x3E])
  {
    assert [] + ([0x2F, 0x3E] + []) == [0x2F, 0x3E];
  }

  lemma {:induction false} BareWalk(name: Bytes)
    ensures WalkNodes(Scopes([], None), [Element(name, [], [])]).Passed?
  {
    hide Enter;
    OneWalk(Scopes([], None), Element(name, [], []));
    NoAttrsWalk(Scopes([], None), name);
  }

  // ---- comments ----

  /** A comment of the standard is skipped if and only if it has a first character, and not `>` or `->` at its front. */
  lemma {:induction false} CommentIff(c: Bytes, r: Bytes)
    requires StandardComment(c)
    ensures SkipComment([0x3C, 0x21, 0x2D, 0x2D] + (c + ([0x2D, 0x2D, 0x3E] + r))) == Some(r)
            <==> c != [] && c[0] != 0x3E && !([0x2D, 0x3E] <= c)
  {
    hide Find, StandardComment;
    var s := PartBytes(Comment(c), r);
    if c != [] && c[0] != 0x3E && !([0x2D, 0x3E] <= c) {
      CommentEnd(c, r);
    } else {
      CommentCutShort(c, r);
    }
  }

  /** The other comments are refused, or end at once. */
  lemma {:induction false} CommentCutShort(c: Bytes, r: Bytes)
    requires c == [] || c[0] == 0x3E || [0x2D, 0x3E] <= c
    ensures SkipComment(PartBytes(Comment(c), r)) != Some(r)
  {
    hide Find;
    var s := PartBytes(Comment(c), r);
    if c != [] && c[0] == 0x3E {
      FirstEnd(s, 2);
      assert |s[5..]| > |r|;
    } else if c == [] {
      FirstEnd(s, 4);
    } else {
      assert c[0] == 0x2D && c[1] == 0x3E;
      FirstEnd(s, 3);
    }
  }

  /** The first end of a comment is at k. */
  lemma {:induction false} FirstEnd(s: Bytes, k: nat)
    requires k <= 4 && |s| >= k + 3 && s[k] == 0x2D && s[k + 1] == 0x2D && s[k + 2] == 0x3E
    requires forall i | 0 <= i < k :: s[i] != 0x2D || s[i + 1] != 0x2D || s[i + 2] != 0x3E
    ensures Find(s, END_COMMENT) == Some(k)
  {
    hide Find;
    assert s == s[..k] + END_COMMENT + s[k + 3..];
    forall i | 0 <= i < k
      ensures !(END_COMMENT <= s[i..])
    {
      assert s[i..][0] == s[i] && s[i..][1] == s[i + 1] && s[i..][2] == s[i + 2];
    }
    FindAt(s[..k], END_COMMENT, s[k + 3..]);
  }
}
