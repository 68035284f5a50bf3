/**
 * What a start tag does to the namespaces, said without the element stack's own operations: which URI a prefix has
 * behind it, and which element waits for a namespace (src/ixml/ixmlparser.c:525-580, 804-825, 1580-1835).
 */
module Scoping {
  import opened CStrings
  import opened XmlTree
  import opened Namespaces
  import opened NamespaceWalk

  /** The value of the last attribute that has one of the names. */
  function LastOf(attrs: seq<Attr>, names: set<Bytes>): Option<Bytes> {
    if attrs == [] then None
    else
      var later := LastOf(attrs[1..], names);
      if later.None? && attrs[0].name in names then Some(attrs[0].value) else later
  }

  /** The attributes that declare the prefix in a tag with the name: an element with this prefix also takes xmlns for it. */
  function Declaring(name: Bytes, prefix: Bytes): set<Bytes> {
    {[0x78, 0x6D, 0x6C, 0x6E, 0x73, 0x3A] + prefix}
    + if PrefixOf(name) == Some(prefix) then {[0x78, 0x6D, 0x6C, 0x6E, 0x73]} else {}
  }

  lemma Colon(name: Bytes, prefix: Bytes)
    ensures name == [0x78, 0x6D, 0x6C, 0x6E, 0x73, 0x3A] + prefix <==> XMLNS + COLON <= name && name[6..] == prefix
    ensures XMLNS == [0x78, 0x6D, 0x6C, 0x6E, 0x73] && (name == XMLNS ==> !(XMLNS + COLON <= name))
  {
    var key := [0x78, 0x6D, 0x6C, 0x6E, 0x73, 0x3A];
    assert key == XMLNS + COLON;
    if key <= name {
      assert name == key + name[6..];
    }
  }

  /** One declaration. */
  lemma DeclareMeans(stack: seq<StackItem>, name: Bytes, value: Bytes, prefix: Bytes)
    requires stack != []
    ensures PrefixDefined(DeclareTop(stack, name, value), prefix)
         == if name in Declaring(stack[0].element, prefix) then Some(Some(value)) else PrefixDefined(stack, prefix)
    ensures DefaultNamespace(DeclareTop(stack, name, value))
         == if PrefixOf(stack[0].element) == None && name == [0x78, 0x6D, 0x6C, 0x6E, 0x73] then Some(value)
            else DefaultNamespace(stack)
  {
    hide PrefixOf;
    var r := DeclareTop(stack, name, value);
    Colon(name, prefix);
    assert r[1..] == stack[1..] && r[0].Prefix() == stack[0].Prefix();
    if XMLNS + COLON <= name && stack[0].Prefix() != Some(name[6..]) {
      DeclaredMeans(stack[0].decls, name[6..], value, prefix);
    }
  }

  /** The first declaration of the prefix in the list has the new URI, and that of another prefix is the one it was. */
  lemma {:induction false} DeclaredMeans(decls: seq<Decl>, prefix: Bytes, nsURI: Bytes, other: Bytes)
    ensures var r := Declared(decls, prefix, nsURI);
            var k, j := DeclOf(decls, other), DeclOf(r, other);
            && (other == prefix ==> j < |r| && r[j].nsURI == nsURI)
            && (other != prefix ==> (j < |r| <==> k < |decls|) && (k < |decls| ==> r[j] == decls[k]))
  {
    hide Declared, DeclOf;
    if decls == [] {
      NoneDeclared(prefix, nsURI);
      InFront(Decl(prefix, nsURI), [], other);
    } else {
      var d, ds := decls[0], decls[1..];
      assert [d] + ds == decls;
      DeclaredInFront(d, ds, prefix, nsURI);
      InFront(d, ds, other);
      if d.prefix == prefix {
        InFront(Decl(prefix, nsURI), ds, other);
      } else {
        DeclaredMeans(ds, prefix, nsURI, other);
        InFront(d, Declared(ds, prefix, nsURI), other);
      }
    }
  }

  lemma NoneDeclared(prefix: Bytes, nsURI: Bytes)
    ensures Declared([], prefix, nsURI) == [Decl(prefix, nsURI)] + []
  {
  }

  lemma DeclaredInFront(d: Decl, ds: seq<Decl>, prefix: Bytes, nsURI: Bytes)
    ensures Declared([d] + ds, prefix, nsURI) ==
              if d.prefix == prefix then [Decl(prefix, nsURI)] + ds else [d] + Declared(ds, prefix, nsURI)
  {
    hide DeclOf;
    InFront(d, ds, prefix);
  }

  lemma InFront(d: Decl, decls: seq<Decl>, prefix: Bytes)
    ensures DeclOf([d] + decls, prefix) == if d.prefix == prefix then 0 else 1 + DeclOf(decls, prefix)
  {
    assert ([d] + decls)[1..] == decls;
  }

  /** Entering an element changes what its own prefix is only when that has no URI, and nothing else. */
  lemma EnterMeans(s: Scopes, name: Bytes, more: bool, prefix: Bytes)
    ensures var r, before := Enter(s, name, more).stack, PrefixDefined(s.stack, prefix);
            && DefaultNamespace(r) == DefaultNamespace(s.stack)
            && PrefixDefined(r, prefix) ==
                 if PrefixOf(name) != Some(prefix) then before
                 else if before.None? then Some(None)
                 else if before == Some(None) then Some(Some([]))
                 else before
  {
    hide PrefixOf;
  }

  lemma {:induction false} AttrsMean(s: Scopes, attrs: seq<Attr>, prefix: Bytes)
    requires s.stack != [] && WalkAttrs(s, attrs).Passed?
    ensures var r, last := WalkAttrs(s, attrs).scopes.stack, LastOf(attrs, Declaring(s.stack[0].element, prefix));
            PrefixDefined(r, prefix) == if last.Some? then Some(last) else PrefixDefined(s.stack, prefix)
    ensures var r, last := WalkAttrs(s, attrs).scopes.stack, LastOf(attrs, {[0x78, 0x6D, 0x6C, 0x6E, 0x73]});
            DefaultNamespace(r) ==
              if PrefixOf(s.stack[0].element) == None && last.Some? then last else DefaultNamespace(s.stack)
    decreases |attrs|
  {
    hide PrefixOf, PrefixDefined, DefaultNamespace, Declaring, ResolveNeed, DeclareTop;
    if attrs != [] {
      var stack := DeclareTop(s.stack, attrs[0].name, attrs[0].value);
      DeclareMeans(s.stack, attrs[0].name, attrs[0].value, prefix);
      AttrsMean(Scopes(stack, ResolveNeed(s.need, stack).need), attrs[1..], prefix);
    }
  }

  /**
   * Behind a start tag a prefix has the URI of the last attribute that declares it, or else the one it had in front
   * of the tag; the prefix of the element itself is defined behind the tag, with no URI if it had none.
   */
  lemma PrefixBehind(s: Scopes, name: Bytes, attrs: seq<Attr>, prefix: Bytes)
    requires WalkStart(s, name, attrs).Passed?
    ensures var before, last := PrefixDefined(s.stack, prefix), LastOf(attrs, Declaring(name, prefix));
            PrefixDefined(WalkStart(s, name, attrs).scopes.stack, prefix) ==
              if last.Some? then Some(last)
              else if PrefixOf(name) != Some(prefix) then before
              else if before.None? then Some(None)
              else if before == Some(None) then Some(Some([]))
              else before
  {
    hide PrefixOf, PrefixDefined, DefaultNamespace, Declaring, Enter, WalkAttrs;
    EnterMeans(s, name, attrs != [], prefix);
    AttrsMean(Enter(s, name, attrs != []), attrs, prefix);
  }

  /** The default namespace is the one the last xmlns declares; an element with a prefix declares none. */
  lemma DefaultBehind(s: Scopes, name: Bytes, attrs: seq<Attr>)
    requires WalkStart(s, name, attrs).Passed?
    ensures var last := LastOf(attrs, {[0x78, 0x6D, 0x6C, 0x6E, 0x73]});
            DefaultNamespace(WalkStart(s, name, attrs).scopes.stack) ==
              if PrefixOf(name) == None && last.Some? then last else DefaultNamespace(s.stack)
  {
    hide PrefixOf, PrefixDefined, DefaultNamespace, Declaring, Enter, WalkAttrs;
    EnterMeans(s, name, attrs != [], []);
    AttrsMean(Enter(s, name, attrs != []), attrs, []);
  }

  // ---- which element waits ----

  lemma {:induction false} NoneWaits(s: Scopes, attrs: seq<Attr>)
    requires s.stack != [] && s.need == None
    ensures WalkAttrs(s, attrs).Passed? && WalkAttrs(s, attrs).scopes.need == None
    decreases |attrs|
  {
    hide DeclareTop;
    if attrs != [] {
      NoneWaits(Scopes(DeclareTop(s.stack, attrs[0].name, attrs[0].value), None), attrs[1..]);
    }
  }

  /** An element that waits itself waits until one of its attributes declares its prefix. */
  lemma {:induction false} ItselfWaits(s: Scopes, attrs: seq<Attr>, prefix: Bytes)
    requires s.stack != [] && s.need == Some(s.stack[0].element) && PrefixOf(s.stack[0].element) == Some(prefix)
    requires s.stack[0].namespaceUri == None
    ensures var w := WalkAttrs(s, attrs);
            && w.Passed?
            && w.scopes.need == if LastOf(attrs, Declaring(s.stack[0].element, prefix)).Some? then None else s.need
    decreases |attrs|
  {
    hide PrefixOf;
    if attrs != [] {
      var name, value := attrs[0].name, attrs[0].value;
      var stack := DeclareTop(s.stack, name, value);
      Colon(name, prefix);
      if name in Declaring(s.stack[0].element, prefix) {
        NoneWaits(Scopes(stack, None), attrs[1..]);
      } else {
        NotOwn(s.stack[0], name, value, prefix);
        ItselfWaits(Scopes(stack, s.need), attrs[1..], prefix);
      }
    }
  }

  lemma NotOwn(item: StackItem, name: Bytes, value: Bytes, prefix: Bytes)
    requires item.Prefix() == Some(prefix) && name != XMLNS && (XMLNS + COLON <= name ==> name[6..] != prefix)
    ensures Declare(item, name, value).namespaceUri == item.namespaceUri
  {
  }

  /** With no element waiting, a start tag is never refused, and the element waits if its prefix is not declared. */
  lemma NewWaits(s: Scopes, name: Bytes, attrs: seq<Attr>)
    requires s.need == None
    ensures var w, p := WalkStart(s, name, attrs), PrefixOf(name);
            && w.Passed?
            && w.scopes.need == if p.Some? && PrefixDefined(s.stack, p.value) == None
                                   && LastOf(attrs, Declaring(name, p.value)) == None then Some(name) else None
  {
    hide PrefixOf, PrefixDefined, DefaultNamespace, Declaring;
    var t := Enter(s, name, attrs != []);
    if t.need == None {
      NoneWaits(t, attrs);
    } else if PrefixOf(name).Some? {
      ItselfWaits(t, attrs, PrefixOf(name).value);
    } else {
      FirstServes(t, attrs);
    }
  }

  /** An element without a prefix stops waiting at its first attribute. */
  lemma FirstServes(t: Scopes, attrs: seq<Attr>)
    requires t.stack != [] && t.need == Some(t.stack[0].element) && PrefixOf(t.stack[0].element) == None && attrs != []
    ensures WalkAttrs(t, attrs).Passed? && WalkAttrs(t, attrs).scopes.need == None
  {
    hide PrefixOf;
    var stack := DeclareTop(t.stack, attrs[0].name, attrs[0].value);
    NoneWaits(Scopes(stack, None), attrs[1..]);
  }

  /**
   * With an element waiting, a tag whose own prefix is not defined takes over. Otherwise one without attributes changes
   * nothing, and the first attribute of another is tried for the element that waits: it serves if the prefix is the
   * same, and is refused if it is another one. Without a prefix, the element is forgotten if there is no default
   * namespace, and else the program reads through NULL.
   */
  lemma OtherWaits(s: Scopes, name: Bytes, attrs: seq<Attr>, waiting: Bytes)
    requires s.need == Some(waiting) && PrefixOf(waiting).Some?
    ensures var w, p := WalkStart(s, name, attrs), PrefixOf(name);
            if p.Some? && PrefixDefined(s.stack, p.value) == None then
              && w.Passed?
              && w.scopes.need == if LastOf(attrs, Declaring(name, p.value)).None? then Some(name) else None
            else if attrs == [] then w.Passed? && w.scopes.need == s.need
            else if p.None? then
              if DefaultNamespace(s.stack) == None then w.Passed? && w.scopes.need == None else w == NullRead
            else if p == PrefixOf(waiting) then w.Passed? && w.scopes.need == None
            else w == Refusal
  {
    hide PrefixOf, PrefixDefined, DefaultNamespace, Declaring;
    var t := Enter(s, name, attrs != []);
    var p := PrefixOf(name);
    if p.Some? && PrefixDefined(s.stack, p.value) == None {
      ItselfWaits(t, attrs, p.value);
    } else if attrs != [] {
      if p.None? && DefaultNamespace(s.stack) == None {
        FirstServes(t, attrs);
      } else {
        OtherTried(t, attrs, waiting);
      }
    }
  }

  lemma OtherTried(t: Scopes, attrs: seq<Attr>, waiting: Bytes)
    requires t.stack != [] && attrs != [] && t.need == Some(waiting)
    requires PrefixOf(waiting).Some? && (t.stack[0].Prefix() == PrefixOf(waiting) ==> t.stack[0].namespaceUri.Some?)
    ensures var w, p := WalkAttrs(t, attrs), t.stack[0].Prefix();
            if p.None? then w == NullRead
            else if p == PrefixOf(waiting) then w.Passed? && w.scopes.need == None
            else w == Refusal
  {
    hide PrefixOf;
    var stack := DeclareTop(t.stack, attrs[0].name, attrs[0].value);
    assert stack[0].Prefix() == t.stack[0].Prefix();
    assert t.stack[0].namespaceUri.Some? ==> stack[0].namespaceUri.Some?;
    if t.stack[0].Prefix() == PrefixOf(waiting) {
      NoneWaits(Scopes(stack, None), attrs[1..]);
    }
  }
}
