# libdlna: verified models of its data structures

This project models the parts of libdlna that carry state and algorithms, and proves what they promise.

- **Hash table** (`HashBits`, `HashChains`, `HashTable`, `MergeSort`, `HashSort`, `HashFsck`). One uthash
  table with its two linked structures: bucket chains and the application-order list. Adding, finding,
  deleting, doubling the buckets and the in-place merge sort are methods on linked items; the table refines
  a map and a sequence, and its own integrity check reports exactly the damage it looks for, and none on a
  valid table.
- **XML** (`CStrings`, `Utf8`, `XmlChars`, `CharCounts`, `Escape`, `XmlTree`, `Lexer`, `Parser`, `ParserInvariant`,
  `TokenLemmas`, `Namespaces`, `NamespaceWalk`, `Scoping`, `References`, `Copying`, `Sources`, `SourceSteps`,
  `SourceRead`, `SourceDocument`, `Refusals`, `MarkupRefusals`, `Tolerance`, `RoundTrip`, `PrintInjective`,
  `DomBuilder`, `XmlParser`, `Membuf`, `Printer`, `Layout`, `Clone`, `ParsedNodes`, `AcceptedNamespaces`, `EndToEnd`).
  The pull parser is described by functions on its state, about which the theorems are proved, and the object
  `XmlParser` with its loops, which builds a linked tree, is proved to compute these functions. A grammar says what
  can be written and what it stands for, and the parser reads every document of the grammar so (`DocumentRead`); what
  else it takes and what it refuses is said round by round (`Tolerance`, `Refusals`, `MarkupRefusals`), and what it
  copies as text exactly (`CopyIff`). The printer and the deep clone work on linked nodes. Printing, cloning, and
  parsing again give the document back, for exactly the documents `SurvivesIff` names. Every valid document whose
  prefixes are declared is among them (`DeclaredSurvives`), and of the documents the parser itself has accepted all
  those without blank text and without siblings behind text (`AcceptedSurvivesIff`).
- **DOM** (`Dom`, `Element`). The pointer tree with parent and sibling links, and the attribute list.
- **CRC-32** (`CrcRegister`, `Crc32`). The table-driven form against the bit-serial register of section 8
  of RFC 1952.
- **Virtual file system and search** (`IdProbe`, `Vfs`, `VfsIndex`, `Cds`). The tree of containers and resources, the
  index over it and its hash table, the search for free ids, the bounded search and the paging of the content directory.
- **Linked list** (`LinkedList`). Sentinels, and nodes recycled through a free chain.

## Reading guide

A `char *` is the sequence of bytes from the pointer to the terminating NUL. Ghost parameters such as the
forest `t: Shape` in `Dom` or the tree nodes `ts` in `Printer` say what the linked nodes stand for; they are
not in the program. Class invariants are called `Valid`; since every method requires and ensures them, they
hold after every run of operations. `hide` only keeps definitions out of a proof.

## What the code does that its documentation does not say

- `AddContainer`: a container is registered before its parent is looked up. One that names its own new id
  as its parent finds itself, and is registered but not reachable. The contract says: tree and index agree
  afterwards if and only if this is not the case. `LostContainer` is such a call.
- `AddResource`: when no media item can be made, the node is freed, which decrements the item counter for a
  node that was never counted. The contract says: the counter is right if and only if there is a media item.
- `NoIdForLoopingPath`: the id of a resource is searched by hashing the path again and again. For the path
  `/aaagcvmgq` and a root with id 0 this never ends. `EndsIff` and `FindsIff` give the exact condition, which
  can be checked in one round more than there are objects.
- `Element.Replace`: replacing an attribute loses the attributes behind it, and the new node does not know the
  one in front of it. The contract says: the list is the expected one, read in both directions, if and only if
  the element has one attribute; read forwards only, if and only if the replaced attribute was the last.
- `Clone.ClonedIff`: a deep clone stops at the first text or CDATA node of a row of siblings, like the
  printer. It is complete if and only if no such node has a following sibling. In the clone of a document
  only the first child gets a parent link (`CloneNodeTree`): it is fully linked if and only if there is no
  second child.
- `EndToEnd.SurvivesIff`: not every document survives printing and parsing. Siblings behind a text or CDATA node
  are not printed, and text of white space is not read (`PrintParseNormalises`); a CDATA section that is empty,
  has a byte above ASCII or contains `]]>` is not read either, and invalid names and repeated attributes are
  refused. What is left is the set of valid documents (`ValidDocument`); of these, exactly those come back whose namespaces
  the parser can follow (`NamespacesPass`, a walk over element names and attributes in document order).
- `NamespacesPass`: an element whose prefix is declared nowhere does not fail itself. It waits for a declaration, and the
  next attribute, also of another element, is tried for it. That refuses the attribute, or compares a prefix that is
  NULL, depending on the element (`UndeclaredStops`, `UndeclaredLost`). Documents that declare their prefixes always pass
  (`WellPrefixedPasses`), and so does everything the parser has accepted (`AcceptedPasses`).
- `Tolerance`: tags without `>` in front of other tags, `>` outside tags, attributes without white space between them, white
  space in front of the name in an end tag, and unended instructions behind the document type are all taken. A CDATA section
  with a byte that is not ASCII is cut short, and two more bytes are lost.
- `SourceDocument.CommentIff`: `<!---->` and comments that begin with `->` are refused, and one that begins with `>` ends
  there, although the standard allows all of them. `References.HexRead`: a reference to a number too large wraps around.
- `Parser.ParseLoop`: an end tag with no open element is looked up in an empty element stack. Assertions are off in a
  build without debugging (src/Makefile:78), so this and the comparison with a NULL prefix are outcomes of their own
  (`NullDereference`); with debugging an assertion stops the first of them.
- `Dom.InsertBefore`, `Dom.AppendChild`: their comments say that a new child already in the tree is removed first;
  the code does so only for a child of the same node. Such new children, the node itself and the reference child
  are not refused either. The contracts say: the links are those of a forest afterwards if and only if the new
  child is none of these. `InsertUnmovable`, `AppendUnmovable` and
  `ReplaceUnmovable` show that the checks let them through.
- `Dom.CheckAncestor`: the search for an ancestor goes on to following siblings, so a new child is also refused
  when the node lies below one of its following siblings (`SiblingRefused`).
- `Dom.ReplaceChild`: replacing a child by itself removes it.
- The comment of `ListDestroy` says that items are not freed; the code frees them when asked to. The comment
  of `FreeListFree` speaks of a free list smaller than the maximum; the code keeps one node fewer. The
  comment of `ixmlNode_insertBefore` allows a NULL reference child; the code asserts that there is one. The
  models follow the code.

## Model

| member | source | states |
|---|---|---|
| Utf8.DecodeEncode | src/ixml/ixmlparser.c:376-477 | decoding the encoding of any c in 0..0x7FFFFFFF gives c back and the length of the encoding, whatever bytes follow |
| Utf8.EncodeInjective | src/ixml/ixmlparser.c:376-430 | different characters have different encodings |
| Utf8.EncodePrefixFree | src/ixml/ixmlparser.c:376-430 | no encoding is the beginning of the encoding of another character |
| Utf8.KnownEncodings | src/ixml/ixmlparser.c:376-430 | encodings of one to six octets, octet by octet |
| Utf8.DecodeIff | src/ixml/ixmlparser.c:436-477 | a value is read from n octets if and only if the text begins with its n-octet form, the shortest or a longer one: the table of RFC 2279 as digits to the base 64 |
| Utf8.EncodeShortest | src/ixml/ixmlparser.c:376-430 | the encoder writes the shortest form |
| Utf8.DecodeLocal | src/ixml/ixmlparser.c:436-477 | decoding depends on no byte behind the octets it reports |
| XmlChars.LetterSorted | src/ixml/ixmlparser.c:78-138 | the letter table is sorted and its ranges are disjoint, which the binary search relies on |
| XmlChars.NameCharSorted | src/ixml/ixmlparser.c:147-215 | the same for the table of the other name characters |
| CharCounts.LetterHolds | src/ixml/ixmlparser.c:78-138 | the letter table holds 34516 characters |
| CharCounts.NameCharHolds | src/ixml/ixmlparser.c:147-215 | the table of the other name characters holds 606 |
| XmlChars.IsCharInTable | src/ixml/ixmlparser.c:265-286 | the binary search that starts one slot behind the table answers membership in one of the ranges, exactly |
| XmlChars.ParserIsNameChar | src/ixml/ixmlparser.c:308-322 | the two table searches decide the name character classes |
| Escape.EscapeRoundTrip | src/ixml/ixmlparser.c:1238-1283 | copying the escaped form of any non-empty well-formed text succeeds and gives the text back |
| Escape.CopyEscaped | src/ixml/ixmlparser.c:1143-1283 | the copying loop over escaped text followed by anything stops exactly behind it with the original bytes |
| Escape.EscapedHasNoMarkup | src/ixml/ixml.c:40-78 | no `<`, `>` or quote occurs in escaped text |
| Escape.EscapeInjective | src/ixml/ixml.c:40-78 | different well-formed texts have different escaped forms |
| Lexer.GetNextToken | src/ixml/ixmlparser.c:1517-1579 | a token that is returned is not empty and consumes input; only an overlong `</` leaves a token behind without consuming it |
| Lexer.TokenCopies | src/ixml/ixmlparser.c:1517-1579 | copying a measured token fails only for an empty one and for an overlong `</` |
| Lexer.OverlongStuck | src/ixml/ixmlparser.c:1517-1579 | reading on behind an overlong `</` that was not consumed fails |
| Parser.GetNextNode | src/ixml/ixmlparser.c:2443-2508 | a node that is delivered consumes input, or leaves content mode without consuming any; the backups through savePtr never lose this |
| Parser.ProcessContent | src/ixml/ixmlparser.c:2052-2154 | the same for content, and what kinds of node it can deliver |
| ParserInvariant.RoundKeeps | src/ixml/ixmlparser.c:945-1031 | every round of the parse loop, on any input, keeps: element stack = names on the parent chain from the current node to the document, at most one top-level element, distinct attribute names, tags read = tags of the tree so far |
| ParserInvariant.LoopResult | src/ixml/ixmlparser.c:945-1036 | from any state with the invariant, an accepted document is at most one clean element and the tags read are its tags |
| ParserInvariant.TagsMatch | src/ixml/ixmlparser.c:848-874 | the tag word of any forest is matched: a stack machine returns to the stack it started from |
| ParserInvariant.AcceptedDocument | src/ixml/ixmlparser.c:917-1048 | for all input bytes: success means an empty stack, matched tags that are exactly those of the tree, at most one top-level element, and no attribute name twice in an element |
| TokenLemmas.NameLength | src/ixml/ixmlparser.c:1557-1566 | a valid name in front of a byte that ends names is measured exactly |
| References.ReferenceMeans | src/ixml/ixmlparser.c:1173-1228 | `&#x` or `&#X` with hexadecimal digits of a character in either case, and `&#` with decimal digits, are read as this character |
| References.HexRead | src/ixml/ixmlparser.c:1183-1204 | a hexadecimal reference to any number is read as the number modulo 2^32, as a signed one, and refused if that is no XML character |
| References.DecRead | src/ixml/ixmlparser.c:1205-1228 | the same for decimal references |
| References.CopySpelled | src/ixml/ixmlparser.c:1238-1283 | text in which every character is written in any of the four ways is copied as the text that is meant |
| Copying.GetCharIff | src/ixml/ixmlparser.c:1143-1228 | a character is read from k bytes if and only if they are a form of it in UTF-8, one of the five names, or a reference to it |
| Copying.CopyIff | src/ixml/ixmlparser.c:1238-1283 | bytes are copied as text if and only if they consist of such pieces, and the copy is what these stand for |
| Refusals.AmpersandMeans | src/ixml/ixmlparser.c:1143-1228 | behind `&` nothing is read but the five names, in any case, and numeric references |
| Refusals.LessThanRefused | src/ixml/ixmlparser.c:2374-2394 | a quoted value with `<` in it is refused, also behind an `&` where the check does not look |
| Refusals.SectionEndRefused | src/ixml/ixmlparser.c:2101-2140 | text with `]]>` in it is refused |
| Refusals.EqualsMissing | src/ixml/ixmlparser.c:2351-2359 | an attribute name without `=` behind it is refused |
| Refusals.QuoteMissing | src/ixml/ixmlparser.c:2360-2368 | a value without a quote is refused |
| Refusals.EndBracketMissing | src/ixml/ixmlparser.c:2163-2204 | an end tag with anything but white space between name and `>` is refused |
| MarkupRefusals.LateDeclaration | src/ixml/ixmlparser.c:1322-1346 | an XML declaration, in any case, behind the beginning of the document is refused |
| MarkupRefusals.TagNeedsName | src/ixml/ixmlparser.c:1540-1548 | `<` in front of anything but a name, `/`, `!` or `?` is refused |
| MarkupRefusals.SlashAlone | src/ixml/ixmlparser.c:1551-1555 | `/` without `>` is refused |
| MarkupRefusals.NameOutsideTags | src/ixml/ixmlparser.c:2491-2499 | a name outside tags is refused |
| MarkupRefusals.NoAttributeName | src/ixml/ixmlparser.c:2342-2345 | `=` or a quote in place of a name is refused |
| MarkupRefusals.EmptyTagFirst | src/ixml/ixmlparser.c:2477-2481 | `/>` in front of all tags is refused |
| MarkupRefusals.TagInAttributes | src/ixml/ixmlparser.c:2416-2430 | a start tag behind an attribute is refused |
| MarkupRefusals.ContentUnended | src/ixml/ixmlparser.c:2080-2097 | a comment or instruction that does not end is refused in content |
| MarkupRefusals.CommentUnended | src/ixml/ixmlparser.c:1486-1508 | and so is a comment outside content |
| MarkupRefusals.ValueUnended | src/ixml/ixmlparser.c:2370-2373 | a value without its second quote is refused |
| MarkupRefusals.SectionRefused | src/ixml/ixmlparser.c:1972-2018 | a CDATA section that is empty or does not end is refused |
| MarkupRefusals.DeclarationRefused | src/ixml/ixmlparser.c:1376-1408 | a declaration that does not end, or is not written `<?xml ` with these letters, is refused |
| MarkupRefusals.TypeRefused | src/ixml/ixmlparser.c:1442-1477 | a document type without `>` is refused |
| Tolerance.StartUnclosed | src/ixml/ixmlparser.c:1880-1891 | a start tag without `>` in front of another tag begins its element all the same |
| Tolerance.AttributeUnclosed | src/ixml/ixmlparser.c:2416-2430 | an attribute with an end tag and no `>` behind it is delivered, and the end tag is read next |
| Tolerance.EndTagSpaced | src/ixml/ixmlparser.c:2163-2204 | white space may stand in front of the name in an end tag |
| Tolerance.StrayBracket | src/ixml/ixmlparser.c:2470-2472 | `>` outside tags is skipped |
| Tolerance.SectionCutShort | src/ixml/ixmlparser.c:1972-2018 | a CDATA section ends in front of a byte that is not ASCII or no character, and reading goes on behind the third byte from there |
| Tolerance.InstructionUnended | src/ixml/ixmlparser.c:2462-2468 | outside content an instruction that does not end is the end of the document if no element is open, and else an error |
| Tolerance.EndOfNothing | src/ixml/ixmlparser.c:2473-2474 | an end tag with no element open ends in the lookup in an empty stack |
| SourceSteps.StartRound | src/ixml/ixmlparser.c:1840-1894 | one round on a start tag delivers its name and finds what is behind it: `>`, `/>` or an attribute, with any white space in front |
| SourceSteps.EmptyRound | src/ixml/ixmlparser.c:2477-2489 | at `/>` the element that began the tag ends |
| SourceSteps.AttributeRound | src/ixml/ixmlparser.c:2322-2435 | one round on an attribute, with quotes of either kind and white space around `=`, delivers name and meant value |
| SourceSteps.TextRound | src/ixml/ixmlparser.c:2101-2140 | one round on text delivers what is meant |
| SourceSteps.CDataRound | src/ixml/ixmlparser.c:1972-2018 | one round on a CDATA section delivers its value |
| SourceSteps.CommentRound | src/ixml/ixmlparser.c:1416-1435 | a comment in content is skipped |
| SourceSteps.InstructionRound | src/ixml/ixmlparser.c:1322-1346 | a processing instruction in content is skipped |
| SourceRead.AttrsRead | src/ixml/ixmlparser.c:743-769 | the rounds over an attribute list append all attributes in order |
| SourceRead.TagRead | src/ixml/ixmlparser.c:917-1048 | from any state in front of it, a tag with everything in it, empty or not, is read as exactly one finished element, and leaves the namespaces as the walk over the element does; or the parse ends where that walk is refused |
| SourceRead.PartsRead | src/ixml/ixmlparser.c:2052-2154 | content with text, sections, comments, instructions, white space and tags in any order is read as the nodes it stands for |
| SourceDocument.ItemsSkipped | src/ixml/ixmlparser.c:1442-1477 | a document type declaration is skipped, with strings and brackets at any depth |
| SourceDocument.DocumentRead | src/ixml/ixmlparser.c:917-1048 | every document of the grammar (declaration, comments, instructions, document type, root, epilogue) is read as the document it stands for, or ends as its namespaces demand |
| SourceDocument.EmptyTagsAgree | src/ixml/ixmlparser.c:2477-2489 | wherever `<name attributes/>` stands in a document, at any depth, the parse is the one with `<name attributes></name>` instead |
| SourceDocument.EmptyElement | src/ixml/ixmlparser.c:2477-2489 | `<name/>` alone is a document with one empty element, for every valid name |
| SourceDocument.CommentIff | src/ixml/ixmlparser.c:1416-1435 | a comment of the standard is skipped if and only if it is not empty and does not begin with `>` or `->` |
| RoundTrip.PartsPrinted | src/ixml/ixml.c:86-177 | what the printer prints are the bytes of a document of the grammar |
| RoundTrip.PartsCorrect | src/ixml/ixml.c:86-177 | which is correct, and stands for the printed nodes without blank text |
| RoundTrip.ParseSound | src/ixml/ixmlparser.c:2052-2154 | parsing what the printer prints for a document with text or CDATA only as last siblings gives the document back without its blank text, or ends in exactly the way the walk over its namespaces does |
| RoundTrip.ValidIffKept | src/ixml/ixmlparser.c:2101-2140 | the valid siblings are the sound ones that have no blank text, and dropping it makes sound ones valid |
| RoundTrip.ParsePrint | src/ixml/ixmlparser.c:917-1048 | parsing what the printer prints for any valid document whose namespaces pass gives the document back: names, attribute order and values, text and CDATA at every depth |
| PrintInjective.PrintInjective | src/ixml/ixml.c:363-379 | different valid documents are printed differently, whatever their namespaces |
| PrintInjective.WrappedPasses | src/ixml/ixmlparser.c:1719-1830 | put into an element that declares its prefixes, every valid document is valid and passes |
| NamespaceWalk.WalkNodes | src/ixml/ixmlparser.c:1719-1965 | the walk over the namespaces of siblings leaves the element stack as it was |
| NamespaceWalk.DeclareKnows | src/ixml/ixmlparser.c:1719-1810 | a prefix that is defined stays defined under every declaration, and a declared one becomes defined |
| Scoping.PrefixBehind | src/ixml/ixmlparser.c:1724-1815 | the URI of every prefix behind a start tag, in terms of the attributes and of the one in front: the last declaration counts |
| Scoping.DefaultBehind | src/ixml/ixmlparser.c:1903-1922 | and that of the default namespace |
| Scoping.NewWaits | src/ixml/ixmlparser.c:804-825 | when no element waits for a namespace, no start tag is refused, and its element waits if and only if its prefix is declared nowhere |
| Scoping.OtherWaits | src/ixml/ixmlparser.c:1619-1662 | when one waits, exactly which start tags take over, serve it, are refused, or compare a NULL prefix |
| NamespaceWalk.StartPasses | src/ixml/ixmlparser.c:804-825 | behind the start tag of an element whose prefix is declared in it or around it, no element waits for a namespace |
| NamespaceWalk.WellPrefixedPasses | src/ixml/ixmlparser.c:1620-1965 | every tree in which each element prefix is declared by the element or one around it passes, and leaves nothing behind |
| NamespaceWalk.UndeclaredStops | src/ixml/ixmlparser.c:1620-1662 | two trees with an undeclared prefix: for one the parser refuses an attribute of another element, for the other it compares a prefix that is NULL |
| ParsedNodes.CopiedWellFormed | src/ixml/ixmlparser.c:1238-1283 | whatever bytes are copied to the token buffer, what stands there is shortest-form UTF-8 of XML characters |
| ParsedNodes.NodeSound | src/ixml/ixmlparser.c:2443-2508 | on any input, every node delivered has a valid name, well-formed values and text, and CDATA that can be read again |
| ParsedNodes.AcceptedSound | src/ixml/ixmlparser.c:917-1048 | for all input bytes: an accepted document holds only such names, values, text and CDATA, at every depth |
| AcceptedNamespaces.AttrFollows | src/ixml/ixmlparser.c:1620-1662 | an attribute the parser takes is taken by the walk over the tree, although the parser may wait for another element |
| AcceptedNamespaces.RoundTracks | src/ixml/ixmlparser.c:945-1031 | every round, on any input, keeps the walk over the tree so far in step with element stack and waiting element, also when a tag is left for another tag without `>` |
| AcceptedNamespaces.AcceptedPasses | src/ixml/ixmlparser.c:917-1048 | for all input bytes: the namespaces of an accepted document pass |
| XmlParser.ReadChar | src/ixml/ixmlparser.c:1143-1228 | reading a character, with its digit loops, is the function GetChar |
| XmlParser.MeasureName | src/ixml/ixmlparser.c:1557-1566 | the loop over a name token finds the end of the run of name characters |
| XmlParser.XmlParser.SkipMisc | src/ixml/ixmlparser.c:1486-1508 | the loop over comments, processing instructions and white space refines Lexer.SkipMisc in result and position |
| XmlParser.XmlParser.SkipDocType | src/ixml/ixmlparser.c:1442-1477 | the bracket-counting loop over a document type declaration, with quoted strings |
| XmlParser.XmlParser.CopyToken | src/ixml/ixmlparser.c:1238-1283 | the loop appends to the token buffer what Escape.CopyToken says, also when it fails half-way |
| XmlParser.XmlParser.GetNextToken | src/ixml/ixmlparser.c:1517-1579 | the token reader changes curPtr, tokenBuf and savePtr as Lexer.GetNextToken says |
| XmlParser.XmlParser.GetNameSpace | src/ixml/ixmlparser.c:1588-1611 | the search through the declarations of the top item |
| XmlParser.XmlParser.AddNamespace | src/ixml/ixmlparser.c:1619-1662 | resolving the element that waits for a namespace: done, still waiting, refused, or a comparison with NULL |
| XmlParser.XmlParser.XmlNamespace | src/ixml/ixmlparser.c:1719-1830 | default and prefixed declarations replace or extend those of the top item, then the waiting element is resolved |
| XmlParser.XmlParser.HasDefaultNamespace | src/ixml/ixmlparser.c:1904-1922 | the loop over the element stack finds the innermost default namespace |
| XmlParser.XmlParser.ElementPrefixDefined | src/ixml/ixmlparser.c:1930-1965 | the nested loops over element stack and declarations find the innermost definition of the prefix |
| XmlParser.XmlParser.PushElement | src/ixml/ixmlparser.c:777-839 | a new element is linked in and pushed with the namespace found for it, or waits for one |
| XmlParser.XmlParser.ProcessSTag | src/ixml/ixmlparser.c:1840-1894 | start tags: event, mode and backup |
| XmlParser.XmlParser.ProcessETag | src/ixml/ixmlparser.c:2163-2204 | end tags |
| XmlParser.XmlParser.ProcessAttribute | src/ixml/ixmlparser.c:2322-2435 | attributes: quoted value, illegal `<`, namespace declaration, read-ahead and backup |
| XmlParser.XmlParser.ProcessCDSect | src/ixml/ixmlparser.c:1972-2018 | the CDATA scan |
| XmlParser.XmlParser.ProcessContent | src/ixml/ixmlparser.c:2052-2154 | content: text, CDATA, comments, processing instructions, or back to element mode |
| XmlParser.XmlParser.GetNextNode | src/ixml/ixmlparser.c:2443-2508 | the dispatch on the token that was read |
| XmlParser.XmlParser.ProcessElementName | src/ixml/ixmlparser.c:777-839 | a second top-level element is refused; otherwise the element is linked in, pushed, and becomes the current node |
| XmlParser.XmlParser.ProcessAttributeName | src/ixml/ixmlparser.c:743-769 | a duplicate name is refused; otherwise the attribute is linked in behind the others |
| XmlParser.XmlParser.VerifyEndTag | src/ixml/ixmlparser.c:848-874 | an end tag must name the top of the stack and the current node; both are popped |
| XmlParser.XmlParser.Round | src/ixml/ixmlparser.c:945-1031 | one round of the loop: the result of the parse stays what it was, the linked tree and the invariant are kept, and the input gets shorter or content mode ends |
| XmlParser.XmlParser.ParseDocument | src/ixml/ixmlparser.c:917-1048 | the parse loop ends on every input, because (bytes left, 1 in content mode) decreases lexicographically, and its result is that of the function Parse, about which the theorems above speak; on success the linked tree is well-formed in all its links and stands for the document |
| DomBuilder.TreeKept | src/ixml/ixmlparser.c:917-1048 | changes at open elements leave every finished tree as it is |
| DomBuilder.AppendFinished | src/ixml/ixmlparser.c:962-1003 | appending a finished node to the current node extends the document or the innermost open element |
| DomBuilder.OpenNew | src/ixml/ixmlparser.c:777-839 | a new element as last child of the current node becomes the innermost open element |
| DomBuilder.AttributeAdded | src/ixml/ixmlparser.c:743-769 | an attribute of the current node is an attribute of the innermost open element |
| DomBuilder.Close | src/ixml/ixmlparser.c:848-873 | leaving the current node makes it a finished child of its parent |
| DomBuilder.Builder.OpenElement | src/ixml/ixmlparser.c:777-839 | the linked tree follows: new node, links in all directions, currentNodePtr |
| DomBuilder.Builder.AppendLeaf | src/ixml/ixmlparser.c:962-1003 | text and CDATA are linked in below an element and refused below the document |
| DomBuilder.Builder.IsDuplicateAttribute | src/ixml/ixmlparser.c:717-736 | the walk over the linked attributes finds the name if and only if the element has it |
| DomBuilder.Builder.AddAttribute | src/ixml/ixmlparser.c:743-769 | the attribute list grows at its end, and no other list changes |
| DomBuilder.Builder.CloseElement | src/ixml/ixmlparser.c:865-870 | the parent link of the current node leads to the enclosing open element or the document |
| DomBuilder.Builder.ShowsDocument | src/ixml/ixmlparser.c:917-1048 | with no element open the linked tree is the document, in the form the printer walks |
| Membuf.Buffer.Insert | src/ixml/ixmlmembuf.c:207-236 | inserting at an index inside the contents gives contents before, data, contents behind; other indices are an error that changes nothing |
| Membuf.Buffer.SetSize | src/ixml/ixmlmembuf.c:51-95 | the capacity is exactly that of the code, whether the buffer grows, stays or shrinks; what fits of the contents is kept |
| Membuf.Buffer.Assign | src/ixml/ixmlmembuf.c:134-159 | the contents become the string, also when the buffer shrinks for it |
| Printer.CopyWithEscape | src/ixml/ixml.c:40-78 | the loop appends the escaped text |
| Printer.PrintAttributes | src/ixml/ixml.c:124-134 | the recursion along a linked attribute list appends exactly the printed attributes |
| Printer.PrintDomTreeRecursive | src/ixml/ixml.c:86-177 | the recursion over linked nodes appends exactly the printed siblings, and stops at text and CDATA |
| Printer.PrintDomTree | src/ixml/ixml.c:187-248 | the same for one node without its following siblings, or the children of a document |
| Printer.PrintDocumentNode | src/ixml/ixml.c:363-379 | the buffer holds prolog and children |
| Layout.DocumentBreaks | src/ixml/ixml.c:363-379 | if no name or text holds CR or LF: every LF of the printed document follows a CR, and there is one line break for the declaration, one for each printed element, one more for each whose first child is an element, and one less for each with text behind it; the document begins with the declaration |
| Layout.ExampleBytes | src/ixml/ixml.c:86-177 | every byte of a printed document with two attributes, entities, CDATA, and an element in front of text |
| EndToEnd.PrintParseNormalises | src/ixml/ixml.c:86-177 | printing and parsing a document whose contents are sound cuts rows of siblings off behind their first text or CDATA node, drops blank text, and changes nothing else, or ends in exactly the way the walk over the namespaces of what is left does |
| EndToEnd.SurvivesIff | src/ixml/ixmlparser.c:917-1048 | a document comes back from printing and parsing if and only if it is empty, or valid with namespaces that pass |
| EndToEnd.AcceptedSurvivesIff | src/ixml/ixmlparser.c:917-1048 | for all input bytes: what the parser accepted comes back from printing and parsing if and only if no text or CDATA node has a following sibling and no text is blank |
| EndToEnd.UndeclaredLost | src/ixml/ixmlparser.c:1620-1662 | two valid documents with an undeclared prefix that do not come back: one is refused, for the other the parser compares a NULL prefix |
| EndToEnd.DeclaredSurvives | src/ixml/ixmlparser.c:1719-1965 | every valid document comes back in which each element prefix is declared by the element or one around it |
| EndToEnd.PrintThenParse | src/ixml/ixml.c:363-379 | printing the linked tree of a valid document and parsing the buffer ends in success, if and only if the namespaces pass, with a new linked tree of the same document, well-formed in all its links |
| EndToEnd.CloneThenPrintThenParse | src/ixml/node.c:1209-1267 | the same through a deep clone |
| Clone.PrintCloned | src/ixml/node.c:1106-1199 | printing a deep clone gives the bytes of the original, for all trees, mixed content included |
| Clone.ClonedIff | src/ixml/node.c:1106-1199 | a deep clone is the whole tree if and only if no text or CDATA node has a following sibling |
| Clone.CloneAttributes | src/ixml/node.c:1149-1159 | the copied attribute list has the same attributes in order and is linked in both directions |
| Clone.SetSiblingNodesParent | src/ixml/node.c:1088-1098 | the loop gives the whole row of siblings the parent of the first one and changes no other link |
| Clone.WiredUnder | src/ixml/node.c:1088-1098 | a row whose nodes all got the new parent is linked correctly below it, with everything deeper unchanged |
| Clone.CloneNodeTreeRecursive | src/ixml/node.c:1106-1199 | the copy is new, shows the cloned tree, and is linked to parents, previous and next siblings throughout |
| Clone.CloneNodeTree | src/ixml/node.c:1209-1267 | the clone has no parent and no siblings, and a deep clone prints like the original; the descendants of an element are fully linked; in the deep clone of a document the second child has no parent link, so the children are fully linked if and only if the clone has at most one, which for a document of elements means that the original has at most one |
| Dom.IsAncestor | src/ixml/node.c:491-513 | the recursion, which also walks following siblings, answers whether the parent of the second argument lies below the first argument or one of these siblings |
| Dom.CheckAncestor | src/ixml/node.c:491-513 | the test made before an insertion refuses a new child exactly when it or one of its following siblings is a proper ancestor |
| Dom.RefusedIffAbove | src/ixml/node.c:491-513 | a proper ancestor is always refused; for a detached node or a child of the other node nothing else is |
| Dom.AboveByParent | src/ixml/node.c:491-513 | being a proper ancestor is having the parent in the subtree |
| Dom.Acyclic | src/ixml/node.c:618-849 | no two nodes of a well-formed forest are below each other |
| Dom.KidsAreAttached | src/ixml/node.c:523-536 | a node is in the child list of n if and only if its parent link is n |
| Dom.NewNode | src/ixml/node.c:40-47 | a new node without links joins a well-formed forest |
| Dom.RaisedRanked | src/ixml/node.c:618-684 | attaching a node that is not above the new parent keeps the forest acyclic |
| Dom.InsertRemove | src/ixml/node.c:694-737 | inserting in front of a child and removing that child replaces it in the child sequence |
| Dom.RemoveChild | src/ixml/node.c:749-791 | exact error codes and exact new links, from any state; in a forest the child leaves the child sequence of its parent, becomes detached, the forest stays well-formed, and no other node changes |
| Dom.InsertBefore | src/ixml/node.c:618-684 | exact error codes in order, for every new child; after success the links are those of a forest if and only if the new child is neither the node nor the reference child and was detached or a child of the node; then it stands in front of the reference child, and nothing else changes |
| Dom.InsertUnmovable | src/ixml/node.c:618-684 | a child of another node and a node below itself pass all checks of insertBefore, and leave links that no forest has |
| Dom.AppendUnmovable | src/ixml/node.c:802-849 | the same two pass all checks of appendChild |
| Dom.ReplaceUnmovable | src/ixml/node.c:694-737 | and of replaceChild |
| Dom.SiblingRefused | src/ixml/node.c:491-513 | a new child is refused because of a following sibling, although it is not an ancestor itself |
| Dom.AppendChild | src/ixml/node.c:802-849 | the same for the last place, and the owner document is taken over |
| Dom.ReplaceChild | src/ixml/node.c:694-737 | the same for replacement of a child, which is handed back detached; replacing a child by itself removes it |
| Element.SetAttributeNode | src/ixml/element.c:299-380 | exact error codes; a new name goes last and the list stays linked in both directions; for a name that is taken the list ends at the new node, and is right in both directions if and only if there was one attribute |
| Element.Replace | src/ixml/element.c:336-353 | replacing an attribute gives the list with the new node in its place, read forwards, if and only if it was the last attribute, and in both directions if and only if it was the only one |
| HashBits.MaskIsLow | src/uthash.h:110-110 | masking with 2^k - 1 takes the low k bits |
| HashBits.CeilByBits | src/uthash.h:394-422 | the shift-and-mask form is the quotient rounded up, and positive for a positive number of items |
| HashBits.SplitSlot | src/uthash.h:411-434 | one more bit of the hash value keeps the slot or adds 2^k |
| HashTable.ExpandSplits | src/uthash.h:411-434 | an item of bucket i goes to exactly one of the new buckets i and i + b |
| HashChains.PushedLater | src/uthash.h:411-434 | in a chain an item stands in front of those that were put in before it |
| HashChains.TotalExcessCounts | src/uthash.h:411-434 | the excess the statistics go by is the number of items behind the ideal length of their chains |
| HashTable.ExpandMultMeaning | src/uthash.h:427-431 | the multiplier m of a bucket over the ideal length satisfies m * ideal <= count < (m + 1) * ideal |
| HashTable.MapOfItems | src/uthash.h:51-64 | the map a sequence of items with distinct keys stands for has exactly these keys, each with its item |
| HashTable.MapOfRemoved | src/uthash.h:124-155 | removing one item removes exactly its key |
| HashTable.Table.ExpandBuckets | src/uthash.h:411-451 | no item is lost or duplicated and each ends in bucket hashv & (2b-1); links inverse, counts exact; ideal = ceil(items / buckets) > 0, nonideal_items and expand_mult as documented; expansion is inhibited exactly after two ineffective expansions in a row |
| HashTable.Table.AddToBkt | src/uthash.h:356-366 | the item goes in front of its chain and the other chains stay; the buckets are doubled, from these chains, if and only if the chain holds 10 items, or 10 for each multiple, and expansion is not inhibited |
| HashTable.Table.DelInBkt | src/uthash.h:369-380 | the item leaves its chain and all bucket invariants hold for the others |
| HashTable.Table.FindInBkt | src/uthash.h:346-353 | the walk over one chain finds the item with the key, or there is none in the whole table |
| HashTable.HashHead.Find | src/uthash.h:51-64 | the lookup returns exactly what the map holds under the key |
| HashTable.HashHead.Add | src/uthash.h:69-107 | for a new key: the item is last in application order and under its key in the map, all other entries as before, and the integrity conditions hold |
| HashTable.HashHead.Delete | src/uthash.h:124-155 | also for the head variable itself as argument: the item leaves sequence and map, nothing else does; deleting the last one frees the table |
| MergeSort.SortCorrect | src/uthash.h:458-533 | for a total preorder the bottom-up merge is sorted, a permutation, and stable |
| MergeSort.StableSortUnique | src/uthash.h:458-533 | sortedness and stability leave only one result |
| MergeSort.SortFromPermutes | src/uthash.h:458-533 | whatever the comparison answers, sorting permutes |
| HashSort.Srt | src/uthash.h:458-533 | the in-place sort ends for every list and comparison and permutes the items, sorted and stable if the comparison is a preorder, with prev the reverse of next and tail at its end, and touches no chain and no lookup |
| HashSort.SrtLoop | src/uthash.h:458-533 | the loop over growing run lengths computes the bottom-up merge sort |
| HashSort.MergeTwo | src/uthash.h:483-515 | merging two runs in place by relinking gives the stable merge |
| HashSort.SortKeeps | src/uthash.h:458-533 | sorting keeps keys, items and the map |
| HashFsck.FsckValid | src/uthash.h:176-234 | a table that satisfies the invariant passes the integrity check |
| HashFsck.Fsck | src/uthash.h:176-234 | on links that end when followed forwards, the integrity check reports damage if and only if a backward link or a count is wrong |
| Crc32.TableEntry | src/crc32.c:45-90 | every table entry is the result of eight shift/xor steps on its index |
| Crc32.UpdateIsSerial | src/crc32.c:99-101 | one table lookup does what the bit-serial register does on eight bits |
| CrcRegister.EightBits | src/crc32.c:4-43 | feeding eight bits one after the other is adding them at once and shifting eight times |
| CrcRegister.Step8Linear | src/crc32.c:4-43 | eight shifts are linear over xor |
| CrcRegister.SerialInjective | src/crc32.c:91-103 | for a fixed message the register is an injective function of its start value |
| CrcRegister.WindowInjective | src/crc32.c:91-103 | from one register value, different windows of at most four bytes lead to different values |
| Crc32.CheckValue | src/crc32.c:91-103 | the CRC of `123456789` is CBF43926 |
| Crc32.ComputeCrc32 | src/crc32.c:91-103 | the table-driven loop computes the bit-serial CRC of every buffer from every start value |
| Crc32.Continue | src/crc32.c:91-103 | continuing the CRC of a over b is the CRC of a followed by b |
| Crc32.CrcInjective | src/crc32.c:91-103 | for a fixed message different start values give different CRCs |
| Crc32.BurstDetected | src/crc32.c:91-103 | two messages of one length that differ only within four consecutive bytes have different CRCs |
| IdProbe.EndsIff | src/vfs.c:79-100 | the search over hashed ids ends if and only if it ends within one round more than there are taken ids |
| IdProbe.FindsIff | src/vfs.c:79-100 | the same for finding a free id |
| IdProbe.Cycle | src/vfs.c:79-100 | a taken id whose search leads back to itself is never left |
| IdProbe.LoopingHash | src/vfs.c:92-96 | the hash of the path `/aaagcvmgq` continued from id 1 is id 0 |
| IdProbe.NeverEnds | src/vfs.c:79-100 | with id 0 taken, the search for that path does not end after any number of rounds |
| IdProbe.FirstTried | src/vfs.c:89-97 | the search over hashed ids finds the first id of the sequence crc32(start), crc32(that id + 1), ... that is not taken |
| IdProbe.FreeIdLeft | src/vfs.c:79-100 | while fewer objects are registered than ids can be tried, a container gets a free id |
| Vfs.Dlna.ProvideNextId | src/vfs.c:79-100 | the loop answers the first free id, the first free hashed id, or the id in front of the first tried one when it runs out |
| Vfs.Dlna.NoIdForLoopingPath | src/vfs.c:79-100 | with the root under id 0 there is a path for which no id is ever found |
| Vfs.Dlna.AddChild | src/vfs.c:142-162 | the child goes behind the others and is counted, unless it is already present |
| Vfs.ListGetLength | src/vfs.c:130-140 | the loop counts the children in front of the NULL |
| Vfs.Dlna.AddContainer | src/vfs.c:165-217 | the granted id is new: the one asked for if that is free and not 0, otherwise 0 (in Xbox mode 100000) for the first container and then the least free id from 1 (100001) on; one index entry, one child of the right parent, counters and updateID exactly; tree and index agree afterwards if and only if the container is the root or containerId is not the id that is going to be granted |
| Vfs.XboxIds | src/vfs.c:79-100 | the first two containers in Xbox mode get 100000 and 100001 |
| Vfs.LostContainer | src/vfs.c:165-217 | with only a root, asking for id 5 below container 5 leaves a registered container outside the tree |
| Vfs.Dlna.AddResource | src/vfs.c:220-281 | the same for resources, whose id is the first free one of the hashes of the path that continue from 1 (100001); tree and index agree afterwards if and only if there is a media item |
| Vfs.Dlna.GetItemById | src/vfs.c:102-113 | the node registered under the id, or none |
| Vfs.Dlna.CountsFit | src/vfs.c:142-162 | the 32-bit counters cannot overflow, because every child has an id of its own |
| Vfs.Dlna.RegisteredIsReached | src/vfs.c:142-281 | every registered node is reached from the root through child arrays |
| Vfs.Dlna.ReachedIsRegistered | src/vfs.c:142-281 | everything reached from a registered node is registered under its id |
| Vfs.Dlna.OneParent | src/vfs.c:142-281 | a node occurs at most once among the children of all containers, and its parent link names that container |
| VfsIndex.KeyValue | src/uthash.h:163-166 | the key is the id, byte by byte, lowest first |
| VfsIndex.Index.Find | src/vfs.c:102-113 | finding an id in the hash table is the lookup in the index |
| VfsIndex.Index.Add | src/vfs.c:165-217 | adding a node to the hash table under a new id adds this entry to the index |
| VfsIndex.Index.Remove | src/vfs.c:28-64 | deleting it removes this entry only |
| Cds.SearchRecursive | src/cds.c:465-507 | the first count matching resources of the preorder walk (all for 0, none for a negative count) are written in order and counted; the budget passed down is never 0 when count is not |
| Cds.FoundIsBelow | src/cds.c:465-507 | only matching resources below the container are found |
| Cds.BelowIsFound | src/cds.c:465-507 | every matching resource below the container is found |
| Cds.FoundOnce | src/cds.c:465-507 | nothing is found twice |
| Cds.FoundInOrder | src/cds.c:465-507 | of two resources found, the earlier one is reached through an earlier child where their paths part: preorder |
| Cds.OnePath | src/cds.c:465-507 | only one path leads to an object, so this order is the only one |
| Cds.SiblingsDisjoint | src/cds.c:465-507 | no node is below two different children of a container |
| Cds.BrowseDirectChildren | src/cds.c:230-294 | the page of children that starts at index is written and counted: all from index on for count 0, otherwise at most count of them |
| Cds.PagesCover | src/cds.c:230-294 | pages of one size, one after the other, show every child once and in order |
| LinkedList.FreeList.Alloc | src/threadutil/FreeList.c:81-101 | the node given back last is taken first; otherwise a new node |
| LinkedList.FreeList.Free | src/threadutil/FreeList.c:117-142 | the node is kept if and only if the chain stays shorter than its maximum |
| LinkedList.FreeList.Destroy | src/threadutil/FreeList.c:156-177 | the chain is emptied |
| LinkedList.List.AddAfter | src/threadutil/LinkedList.c:193-220 | the node, recycled if the free chain has one, is inserted behind the given one in the sequence, forwards and backwards; live and free nodes stay disjoint |
| LinkedList.List.AddBefore | src/threadutil/LinkedList.c:234-262 | the same in front of the given one |
| LinkedList.List.AddHead | src/threadutil/LinkedList.c:140-150 | the new node is the first |
| LinkedList.List.AddTail | src/threadutil/LinkedList.c:166-176 | the new node is the last |
| LinkedList.List.DelNode | src/threadutil/LinkedList.c:276-309 | exactly the node leaves the sequence, its item is returned or freed, and it joins the free chain while that is short enough |
| LinkedList.List.Destroy | src/threadutil/LinkedList.c:323-342 | all nodes go, items are freed from first to last if asked for, and the free chain is emptied |
| LinkedList.List.Find | src/threadutil/LinkedList.c:477-510 | the first node behind start whose item matches, or none matches |
| LinkedList.List.Next | src/threadutil/LinkedList.c:414-430 | the node behind, or NULL in front of the sentinel |
| LinkedList.List.Prev | src/threadutil/LinkedList.c:444-460 | the node in front, or NULL behind the sentinel |
| LinkedList.ItemsInserted | src/threadutil/LinkedList.c:193-262 | inserting a node inserts its item in the sequence of items |

## Left out

- XmlParser.XmlParser.VerifyEndTag: answers false for an empty element stack; `Round` never calls it then, but ends in `NullAccess`.
- XmlParser.XmlParser.PushElement: the linked element stack and the linked declarations of its items are sequences; the waiting node pNeedPrefixNode is its name, which is all that is read of it.
- DomBuilder.Builder.OpenElement: the fixed names of document and text nodes, the tagName copy, and the fields prefix, localName and namespaceURI of DOM nodes are not modelled (the namespaces on the element stack, which decide what the parser accepts, are); tags is a ghost record of the tags read.
- XmlChars.IsCharInTable: the probe one slot behind the table, reached only for characters above the last range, counts as a miss.
- XmlParser.ReadChar: the relaxed mode (a replacement for illegal characters) is not modelled, and a digit run of a numeric reference ends at the NUL.
- XmlParser.XmlParser.ProcessCDSect: where the C code would step behind a truncated `]]>` at the end of the input, the model stops at the end.
- HashTable.HashHead.Add: requires a key that is not in the table, as the macro demands of its callers.
- HashTable.HashHead.Delete: requires an item of the table; the key bytes of a stored item do not change, and the element and its handle are one object, so the offset hho does not occur.
- HashTable.Table.ExpandBuckets: num_buckets and the run length of the sort are unbounded numbers, so their 32-bit wrap-around at 2^31 buckets or items is not modelled; hash values are any numbers.
- HashFsck.Fsck: requires links that end when they are followed forwards, since the walks of the macro do not end otherwise; it answers false where the macro prints and exits.
- Dom.InsertBefore: refChild is a node, as the code asserts; node kinds other than element, attribute, text, CDATA and document do not occur.
- Membuf.Buffer.SetSize: a failing realloc is not modelled.
- Membuf.Buffer.Assign: requires a buffer when the string is empty; the code writes the NUL through the NULL pointer otherwise.
- Printer.PrintDomTree: the second set of printers without line breaks (ixmlDomTreetoString) and processing instruction nodes are not modelled.
- Clone.CloneNodeTree: namespace fields and the single-attribute copy are not modelled.
- Vfs.Dlna.AddContainer: requires a free id in the tried range, which FreeIdLeft gives while there are fewer objects than ids; when the range is exhausted the code would register an id twice. A parent that is a resource has no children array.
- Vfs.Dlna.AddResource: requires that the search finds an id and that the parent is a container.
- Vfs.Dlna.GetItemById: the index is a map field; that the hash table represents it is proved in VfsIndex, where the handle inside a node is an object of its own.
- Cds.SearchRecursive: the match is any predicate on items, and what is written for an item is one entry of the buffer.
- LinkedList.List.AddAfter: a failing malloc is not modelled; free_func is recorded as the list of items it was called with.
- Removing objects from the virtual file system (vfs_item_free on linked objects) does not unlink them from the parent's array and is not modelled.
- Network, UPnP, HTTP, the database, media profiles and the player thread are foreign calls or plumbing.
- HASH_JEN and the other hash functions: the hash is any function of the key bytes.
