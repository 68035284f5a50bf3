/**
 * The namespaces of the elements whose end tags have not been read (src/ixml/ixmlparser.c:525-580,
 * 804-825, 1580-1835, 1895-1965). Assertions are off, as the library is built.
 */
module Namespaces {
  import opened CStrings

  const COLON: Bytes := [0x3A]

  const XMLNS: Bytes := [0x78, 0x6D, 0x6C, 0x6E, 0x73]

  /** xmlns, or xmlns: and a prefix. */
  predicate IsNamespaceDecl(name: Bytes) {
    name == XMLNS || XMLNS + COLON <= name
  }

  /** The prefix Parser_setNodePrefixAndLocalName finds: what stands in front of the first colon. */
  function PrefixOf(name: Bytes): Option<Bytes> {
    match Find(name, COLON)
    case None => None
    case Some(k) => Some(name[..k])
  }

  /** IXML_NamespaceURI */
  datatype Decl = Decl(prefix: Bytes, nsURI: Bytes)

  /** IXML_ElementStack */
  datatype StackItem = StackItem(element: Bytes, namespaceUri: Option<Bytes>, decls: seq<Decl>) {
    /** The field prefix, which is set from the element name and never changed. */
    function Prefix(): Option<Bytes> {
      PrefixOf(element)
    }
  }

  /** pCurElement, top first, and the name of pNeedPrefixNode. */
  datatype Scopes = Scopes(stack: seq<StackItem>, need: Option<Bytes>)

  /** The element members of the stack. */
  function Elements(stack: seq<StackItem>): (names: seq<Bytes>)
    ensures |names| == |stack|
  {
    if stack == [] then [] else [stack[0].element] + Elements(stack[1..])
  }

  /** The first declaration of the prefix in the list; the length of the list if there is none. */
  function DeclOf(decls: seq<Decl>, prefix: Bytes): (k: nat)
    ensures k <= |decls| && forall i | 0 <= i < k :: decls[i].prefix != prefix
    ensures k < |decls| ==> decls[k].prefix == prefix
  {
    if decls == [] || decls[0].prefix == prefix then 0 else 1 + DeclOf(decls[1..], prefix)
  }

  /** Parser_ElementPrefixDefined: the URI of the prefix, which may be NULL, or None for FALSE. */
  function PrefixDefined(stack: seq<StackItem>, prefix: Bytes): Option<Option<Bytes>> {
    if stack == [] then None
    else if stack[0].Prefix() == Some(prefix) then Some(stack[0].namespaceUri)
    else
      var k := DeclOf(stack[0].decls, prefix);
      if k < |stack[0].decls| then Some(Some(stack[0].decls[k].nsURI)) else PrefixDefined(stack[1..], prefix)
  }

  /** Parser_hasDefaultNamespace */
  function DefaultNamespace(stack: seq<StackItem>): Option<Bytes> {
    if stack == [] then None
    else if stack[0].Prefix() == None && stack[0].namespaceUri.Some? then stack[0].namespaceUri
    else DefaultNamespace(stack[1..])
  }

  /** The namespace part of Parser_processElementName, with Parser_pushElement. */
  function Enter(s: Scopes, name: Bytes, attributeState: bool): (r: Scopes)
    ensures r.stack != [] && r.stack[0].element == name && r.stack[1..] == s.stack
  {
    match PrefixOf(name)
    case Some(prefix) =>
      (match PrefixDefined(s.stack, prefix)
       case None => Scopes([StackItem(name, None, [])] + s.stack, Some(name))
       case Some(uri) =>
         // safe_strdup makes an empty string of NULL
         Scopes([StackItem(name, Some(if uri.Some? then uri.value else []), [])] + s.stack, s.need))
    case None =>
      match DefaultNamespace(s.stack)
      case Some(uri) => Scopes([StackItem(name, Some(uri), [])] + s.stack, s.need)
      case None => Scopes([StackItem(name, None, [])] + s.stack, if attributeState then Some(name) else s.need)
  }

  /** The first half of Parser_xmlNamespace: an attribute that declares a namespace is entered in the top item. */
  function Declare(item: StackItem, name: Bytes, value: Bytes): (r: StackItem)
    ensures r.element == item.element
  {
    if name == XMLNS then item.(namespaceUri := Some(value))
    else if XMLNS + COLON <= name then
      var localName := name[6..];
      if item.Prefix() == Some(localName) then item.(namespaceUri := Some(value))
      else item.(decls := Declared(item.decls, localName, value))
    else item
  }

  /** The list with a new or changed declaration. */
  function Declared(decls: seq<Decl>, prefix: Bytes, nsURI: Bytes): seq<Decl> {
    var k := DeclOf(decls, prefix);
    if k < |decls| then decls[k := Decl(prefix, nsURI)] else decls + [Decl(prefix, nsURI)]
  }

  /** What resolving the element that needs a namespace comes to. NullString: strcmp reads a NULL prefix. */
  datatype Resolution = Resolved(need: Option<Bytes>) | Refused | NullString

  /** Parser_getNameSpace */
  function GetNameSpace(item: StackItem, prefix: Bytes): Option<Bytes> {
    if item.Prefix() == Some(prefix) then item.namespaceUri
    else
      var k := DeclOf(item.decls, prefix);
      if k < |item.decls| then Some(item.decls[k].nsURI) else None
  }

  /** Parser_addNamespace, for the element name in pNeedPrefixNode and the top item. */
  function AddNamespace(need: Bytes, item: StackItem): Resolution {
    match PrefixOf(need)
    case None => if need != item.element then Refused else Resolved(None)
    case Some(prefix) =>
      if need != item.element && item.Prefix().None? then NullString
      else if need != item.element && item.Prefix() != Some(prefix) then Refused
      else if GetNameSpace(item, prefix).Some? then Resolved(None)
      else Resolved(Some(need))
  }

  /** What Parser_xmlNamespace does to the stack. */
  function DeclareTop(stack: seq<StackItem>, name: Bytes, value: Bytes): (r: seq<StackItem>)
    requires stack != []
    ensures Elements(r) == Elements(stack) && r != [] && r[1..] == stack[1..] && r[0].element == stack[0].element
  {
    [Declare(stack[0], name, value)] + stack[1..]
  }

  /** What Parser_xmlNamespace does to pNeedPrefixNode, when the stack has become so. */
  function ResolveNeed(need: Option<Bytes>, stack: seq<StackItem>): Resolution
    requires stack != []
  {
    if need.None? then Resolved(None) else AddNamespace(need.value, stack[0])
  }
}
