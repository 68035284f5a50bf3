/**
 * XML as it can be written: a grammar for the documents the parser reads, section 2 and 3 of XML 1.0 without entity
 * declarations, the bytes of such a document, and the document it stands for.
 */
module Sources {
  import opened CStrings
  import opened XmlTree
  import opened ParserInvariant
  import opened TokenLemmas
  import opened References

  /** Space, tab, CR and LF. */
  predicate Gap(w: Bytes) {
    forall i | 0 <= i < |w| :: w[i] in {0x20, 0x09, 0x0D, 0x0A}
  }

  /** An attribute: a gap, the name, `=` between gaps, and a value in quotes of either kind. */
  datatype Written = Written(gap: Bytes, name: Bytes, before: Bytes, after: Bytes, quote: Byte, value: seq<Spelling>)

  datatype Part =
    | Tag(name: Bytes, attrs: seq<Written>, gap: Bytes, body: Body)
    | Chars(xs: seq<Spelling>)
    | Section(value: Bytes)
    | Comment(text: Bytes)
    | Instruction(text: Bytes)
    | Blank(w: Bytes)

  /** `/>`, or `>`, content, and an end tag with a gap behind the name. */
  datatype Body = Empty | Filled(content: seq<Part>, gap: Bytes)

  // ---- the bytes ----

  /** The attribute in front of t. */
  function AttrBytes(a: Written, t: Bytes): Bytes {
    a.gap + (a.name + (a.before + ([0x3D] + (a.after + ([a.quote] + (RawText(a.value) + ([a.quote] + t)))))))
  }

  function AttrsBytes(attrs: seq<Written>, t: Bytes): Bytes {
    if attrs == [] then t else AttrBytes(attrs[0], AttrsBytes(attrs[1..], t))
  }

  /** The part in front of t. */
  function PartBytes(part: Part, t: Bytes): Bytes
    decreases part, 0
  {
    match part
    case Tag(name, attrs, gap, body) =>
      [0x3C] + (name + AttrsBytes(attrs, gap +
        (match body
         case Empty => [0x2F, 0x3E] + t
         case Filled(content, endGap) =>
           [0x3E] + PartsBytes(content, [0x3C, 0x2F] + (name + (endGap + ([0x3E] + t)))))))
    case Chars(xs) => RawText(xs) + t
    case Section(v) => [0x3C, 0x21, 0x5B, 0x43, 0x44, 0x41, 0x54, 0x41, 0x5B] + (v + ([0x5D, 0x5D, 0x3E] + t))
    case Comment(c) => [0x3C, 0x21, 0x2D, 0x2D] + (c + ([0x2D, 0x2D, 0x3E] + t))
    case Instruction(c) => [0x3C, 0x3F] + (c + ([0x3F, 0x3E] + t))
    case Blank(w) => w + t
  }

  function PartsBytes(parts: seq<Part>, t: Bytes): Bytes
    decreases parts, 1
  {
    if parts == [] then t else PartBytes(parts[0], PartsBytes(parts[1..], t))
  }

  // ---- what they stand for ----

  function MeantAttrs(attrs: seq<Written>): (r: seq<Attr>)
    ensures |r| == |attrs|
  {
    if attrs == [] then [] else [Attr(attrs[0].name, Meant(attrs[0].value))] + MeantAttrs(attrs[1..])
  }

  /** The nodes: an empty-element tag is an element without children; comments, instructions and gaps are none. */
  function Nodes(parts: seq<Part>): seq<Node> {
    if parts == [] then []
    else
      (match parts[0]
       case Tag(name, attrs, _, body) =>
         [Element(name, MeantAttrs(attrs), if body.Empty? then [] else Nodes(body.content))]
       case Chars(xs) => [Text(Meant(xs))]
       case Section(v) => [CData(v)]
       case _ => [])
      + Nodes(parts[1..])
  }

  // ---- what can be written ----

  predicate CorrectAttr(a: Written) {
    LegalAttr(a) && a.gap != []
  }

  /** An attribute, perhaps without a gap in front of it. */
  predicate LegalAttr(a: Written) {
    && Gap(a.gap) && Gap(a.before) && Gap(a.after)
    && ValidName(a.name) && a.quote in {0x22, 0x27} && CorrectText(a.value)
    && forall i | 0 <= i < |RawText(a.value)| :: RawText(a.value)[i] !in {0x3C, a.quote}
  }

  predicate CorrectAttrs(attrs: seq<Written>) {
    DistinctAttrs(MeantAttrs(attrs)) && forall i | 0 <= i < |attrs| :: CorrectAttr(attrs[i])
  }

  /** CDATA the parser can read: ASCII, not empty, without `]]>`. */
  predicate ValidCData(v: Bytes) {
    && v != [] && (forall i | 0 <= i < |v| :: 0x20 <= v[i] < 0x80 || v[i] in {0x09, 0x0A, 0x0D})
    && forall i | 0 <= i < |v| :: !([0x5D, 0x5D, 0x3E] <= v[i..])
  }

  /** A comment: no `--` in it, and no `-` at its end. The parser also needs a first character, and not `>` or `->`. */
  predicate CorrectComment(c: Bytes) {
    StandardComment(c) && c != [] && c[0] != 0x3E && !([0x2D, 0x3E] <= c)
  }

  predicate StandardComment(c: Bytes) {
    && (forall i | 0 <= i < |c| - 1 :: c[i] != 0x2D || c[i + 1] != 0x2D)
    && (c != [] ==> c[|c| - 1] != 0x2D)
  }

  /** A processing instruction: no `?>` in it, no `>` at its front, and not the XML declaration. */
  predicate CorrectInstruction(c: Bytes) {
    && (forall i | 0 <= i < |c| - 1 :: c[i] != 0x3F || c[i + 1] != 0x3E)
    && (c != [] ==> c[0] != 0x3E)
    && !StartsWithNoCase(c + [0x3F], [0x78, 0x6D, 0x6C, 0x20]) && !StartsWithNoCase(c + [0x3F], [0x78, 0x6D, 0x6C, 0x3F])
  }

  predicate CorrectChars(xs: seq<Spelling>) {
    var raw := RawText(xs);
    && CorrectText(xs) && !Gap(raw)
    && (forall i | 0 <= i < |raw| :: raw[i] != 0x3C)
    && forall i | 0 <= i < |raw| :: !([0x5D, 0x5D, 0x3E] <= raw[i..])
  }

  predicate CorrectPart(part: Part)
    decreases part, 0
  {
    match part
    case Tag(name, attrs, gap, body) =>
      && ValidName(name) && CorrectAttrs(attrs) && Gap(gap)
      && (body.Filled? ==> Gap(body.gap) && CorrectParts(body.content))
    case Chars(xs) => CorrectChars(xs)
    case Section(v) => ValidCData(v)
    case Comment(c) => CorrectComment(c)
    case Instruction(c) => CorrectInstruction(c)
    case Blank(w) => Gap(w)
  }

  predicate IsText(part: Part) {
    part.Chars? || part.Blank?
  }

  /** Text and gaps do not stand side by side; they would be one text. */
  predicate CorrectParts(parts: seq<Part>)
    decreases parts, 1
  {
    parts == [] ||
    (CorrectPart(parts[0]) && CorrectParts(parts[1..]) && (|parts| > 1 ==> !IsText(parts[0]) || !IsText(parts[1])))
  }
}
