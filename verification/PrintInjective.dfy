/**
 * Different valid documents are printed differently, also those whose namespaces the parser would not take: put
 * into an element that declares all their prefixes, they are read back.
 */
module PrintInjective {
  import opened CStrings
  import opened Utf8
  import opened XmlChars
  import opened Escape
  import opened XmlTree
  import opened Namespaces
  import opened NamespaceWalk
  import opened Parser
  import opened TokenLemmas
  import opened ParsedNodes
  import opened RoundTrip

  // ---- prefixes are names ----

  /** What stands in front of a colon in a name is a run of name characters. */
  lemma {:induction false} TailCut(n: Bytes, k: nat)
    requires NameTail(n) && k < |n| && n[k] == 0x3A && forall i | 0 <= i < k :: n[i] != 0x3A
    ensures NameTail(n[..k])
    decreases |n|
  {
    hide IsNameChar, IntToUtf8, Utf8ToInt;
    if k > 0 {
      var (c, j) := Utf8ToInt(n);
      FirstChar(n, true);
      FirstBytes(c, n, j, k);
      TailCut(n[j..], k - j);
      TailFrom(c, n[j..][..k - j]);
      assert n[..k] == n[..j] + n[j..][..k - j];
    }
  }

  lemma FirstBytes(c: int, n: Bytes, j: nat, k: nat)
    requires j <= |n| && IntToUtf8(c) == n[..j] && 0 < k < |n| && n[k] == 0x3A
    ensures j <= k
  {
    hide IntToUtf8;
    if j > 1 {
      EncodedHigh(c);
      assert forall i | 0 <= i < j :: n[i] == n[..j][i];
    }
  }

  lemma NameIsTail(n: Bytes)
    requires ValidName(n)
    ensures NameTail(n)
  {
    hide Utf8ToInt, IntToUtf8;
  }

  lemma {:induction false} FirstColon(n: Bytes)
    ensures match PrefixOf(n)
            case None => true
            case Some(p) => |p| < |n| && p == n[..|p|] && n[|p|] == 0x3A && forall i | 0 <= i < |p| :: n[i] != 0x3A
  {
    if n != [] && !(COLON <= n) {
      FirstColon(n[1..]);
      assert n[0] != 0x3A;
      if PrefixOf(n).Some? {
        assert PrefixOf(n).value == [n[0]] + PrefixOf(n[1..]).value;
      }
    }
  }

  lemma AsciiTail(c: Byte, t: Bytes)
    requires (0x61 <= c <= 0x7A || c == 0x3A) && NameTail(t)
    ensures NameTail([c] + t) && ValidName([c] + t)
  {
    hide NameTail, ValidName;
    AsciiNameChars(c);
    OneByteCopy(c);
    TailFrom(c, t);
    NameFrom(c, t);
  }

  /** The name of the attribute that declares a prefix. */
  function DeclName(prefix: Bytes): Bytes {
    XMLNS + COLON + prefix
  }

  lemma DeclNameValid(prefix: Bytes)
    requires NameTail(prefix)
    ensures ValidName(DeclName(prefix))
  {
    hide NameTail, ValidName;
    var t5 := [0x3A] + prefix;
    var t4 := [0x73] + t5;
    var t3 := [0x6E] + t4;
    var t2 := [0x6C] + t3;
    var t1 := [0x6D] + t2;
    AsciiTail(0x3A, prefix);
    AsciiTail(0x73, t5);
    AsciiTail(0x6E, t4);
    AsciiTail(0x6C, t3);
    AsciiTail(0x6D, t2);
    AsciiTail(0x78, t1);
    assert DeclName(prefix) == [0x78] + t1;
  }

  lemma DeclNameOf(prefix: Bytes)
    ensures XMLNS + COLON <= DeclName(prefix) && DeclName(prefix)[6..] == prefix
  {
  }

  // ---- the element around ----

  /** The prefixes of the element names. */
  function Prefixes(nodes: seq<Node>): seq<Bytes> {
    if nodes == [] then []
    else
      (match nodes[0]
       case Element(name, _, children) =>
         (if PrefixOf(name).Some? then [PrefixOf(name).value] else []) + Prefixes(children)
       case _ => [])
      + Prefixes(nodes[1..])
  }

  /** A declaration of every prefix. */
  function Declarations(prefixes: seq<Bytes>): seq<Attr> {
    if prefixes == [] then []
    else if prefixes[0] in prefixes[1..] then Declarations(prefixes[1..])
    else [Attr(DeclName(prefixes[0]), [])] + Declarations(prefixes[1..])
  }

  /** Each declaration is of one of the prefixes. */
  predicate DeclareOnly(attrs: seq<Attr>, prefixes: seq<Bytes>) {
    forall i | 0 <= i < |attrs| :: |attrs[i].name| >= 6 && attrs[i].name[6..] in prefixes
  }

  lemma {:induction false} DeclaresAll(prefixes: seq<Bytes>)
    requires forall p | p in prefixes :: NameTail(p)
    ensures ValidAttrs(Declarations(prefixes))
    ensures forall p | p in prefixes :: p in DeclaredBy(Declarations(prefixes))
    ensures DeclareOnly(Declarations(prefixes), prefixes)
  {
    hide NameTail, ValidName, DeclName, ValidAttrs, DeclareOnly;
    if prefixes == [] {
      NoneDeclared();
    } else {
      var p, rest := prefixes[0], prefixes[1..];
      DeclaresAll(rest);
      var more := Declarations(rest);
      DeclareMore(more, rest, prefixes);
      if p !in rest {
        DeclareFirst(p, more, rest, prefixes);
      }
    }
  }

  lemma NoneDeclared()
    ensures ValidAttrs([]) && DeclareOnly([], [])
  {
  }

  lemma DeclareMore(more: seq<Attr>, rest: seq<Bytes>, prefixes: seq<Bytes>)
    requires prefixes != [] && rest == prefixes[1..] && DeclareOnly(more, rest)
    ensures DeclareOnly(more, prefixes)
  {
  }

  lemma DeclareFirst(p: Bytes, more: seq<Attr>, rest: seq<Bytes>, prefixes: seq<Bytes>)
    requires prefixes != [] && p == prefixes[0] && NameTail(p) && p !in rest
    requires ValidAttrs(more) && DeclareOnly(more, rest) && DeclareOnly(more, prefixes)
    ensures var d := [Attr(DeclName(p), [])] + more;
            ValidAttrs(d) && DeclareOnly(d, prefixes) && DeclaredBy(d) == {p} + DeclaredBy(more)
  {
    hide NameTail, ValidName, DeclName;
    DeclNameValid(p);
    DeclNameOf(p);
    var d := [Attr(DeclName(p), [])] + more;
    assert d[1..] == more;
    forall i | 0 < i < |d|
      ensures d[i].name != d[0].name && d[i] == more[i - 1]
    {
      assert d[i].name[6..] in rest;
    }
  }

  lemma {:induction false} PrefixesAreTails(nodes: seq<Node>)
    requires ValidNodes(nodes)
    ensures forall p | p in Prefixes(nodes) :: NameTail(p)
  {
    hide NameTail, ValidName, WellFormed, ValidAttrs, PrefixOf;
    if nodes != [] {
      if nodes[0].Element? {
        var name := nodes[0].name;
        FirstColon(name);
        PrefixesAreTails(nodes[0].children);
        PrefixesAreTails(nodes[1..]);
        if PrefixOf(name).Some? {
          NameIsTail(name);
          TailCut(name, |PrefixOf(name).value|);
        }
      } else {
        assert nodes[1..] == [];
      }
    }
  }

  lemma {:induction false} AllDeclared(nodes: seq<Node>, scope: set<Bytes>)
    requires forall p | p in Prefixes(nodes) :: p in scope
    ensures WellPrefixed(nodes, scope)
    decreases nodes
  {
    hide PrefixOf;
    if nodes != [] {
      AllDeclared(nodes[1..], scope);
      if nodes[0].Element? {
        AllDeclared(nodes[0].children, scope + DeclaredBy(nodes[0].attrs));
      }
    }
  }

  function Wrapped(prefixes: seq<Bytes>, doc: seq<Node>): seq<Node> {
    [Element(ROOT, Declarations(prefixes), doc)]
  }

  lemma WrappedPasses(prefixes: seq<Bytes>, doc: seq<Node>)
    requires ValidDocument(doc) && (forall p | p in prefixes :: NameTail(p)) && forall p | p in Prefixes(doc) :: p in prefixes
    ensures ValidDocument(Wrapped(prefixes, doc)) && NamespacesPass(Wrapped(prefixes, doc))
  {
    hide NameTail, ValidName, ValidAttrs, PrefixOf, WalkNodes;
    var w := Wrapped(prefixes, doc);
    DeclaresAll(prefixes);
    RootName();
    assert w[1..] == [];
    AllDeclared(doc, {} + DeclaredBy(Declarations(prefixes)));
    WellPrefixedPasses(Scopes([], None), w, {});
  }

  lemma RootName()
    ensures ValidName(ROOT) && PrefixOf(ROOT) == None
  {
    SomePrefixes();
    AsciiTail(0x72, []);
    assert [0x72] + [] == ROOT;
  }

  lemma WrappedAlike(prefixes: seq<Bytes>, a: seq<Node>, b: seq<Node>)
    requires ValidDocument(a) && ValidDocument(b) && PrintDocument(a) == PrintDocument(b)
    ensures PrintDocument(Wrapped(prefixes, a)) == PrintDocument(Wrapped(prefixes, b))
  {
    hide ValidNodes, PrintTagHead, PrintEndTag;
    assert PrintNodes(a) == PrintDocument(a)[|PROLOG|..] && PrintNodes(b) == PrintDocument(b)[|PROLOG|..];
    assert Wrapped(prefixes, a)[1..] == [] && Wrapped(prefixes, b)[1..] == [];
  }

  /** The printer is injective on valid documents. */
  lemma PrintInjective(a: seq<Node>, b: seq<Node>)
    requires ValidDocument(a) && ValidDocument(b) && PrintDocument(a) == PrintDocument(b)
    ensures a == b
  {
    hide Parse, PrintDocument, ValidNodes, NameTail, NamespacesPass, Prefixes;
    var prefixes := Prefixes(a) + Prefixes(b);
    PrefixesAreTails(a);
    PrefixesAreTails(b);
    WrappedPasses(prefixes, a);
    WrappedPasses(prefixes, b);
    WrappedAlike(prefixes, a, b);
    ParsePrint(Wrapped(prefixes, a));
    ParsePrint(Wrapped(prefixes, b));
    assert Wrapped(prefixes, a)[0].children == a && Wrapped(prefixes, b)[0].children == b;
  }
}
