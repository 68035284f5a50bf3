/**
 * Character classes of the XML parser (src/ixml/ixmlparser.c:63-350): the Char production of
 * section 2.2 of XML 1.0 (2nd edition) and the two tables behind Parser_isNameChar.
 */
module XmlChars {
  /** char_info_t: the closed interval l..h. */
  datatype Range = R(l: nat, h: nat)

  /** Parser_isXmlChar */
  predicate IsXmlChar(c: int): (r: bool)
    // no control character but tab, LF and CR, no surrogate, and not FFFE or FFFF
    ensures r <==> 0 <= c < 0x110000 && (c < 0x20 ==> c in {0x09, 0x0A, 0x0D}) && !(0xD800 <= c < 0xE000)
                   && c != 0xFFFE && c != 0xFFFF
  {
    c == 0x9 || c == 0xA || c == 0xD
    || 0x20 <= c <= 0xD7FF || 0xE000 <= c <= 0xFFFD || 0x10000 <= c <= 0x10FFFF
  }

  const LETTER0: seq<Range> := [
    R(0x003A, 0x003A), R(0x0041, 0x005A), R(0x005F, 0x005F), R(0x0061, 0x007A),
    R(0x00C0, 0x00D6), R(0x00D8, 0x00F6), R(0x00F8, 0x00FF), R(0x0100, 0x0131),
    R(0x0134, 0x013E), R(0x0141, 0x0148), R(0x014A, 0x017E), R(0x0180, 0x01C3),
    R(0x01CD, 0x01F0), R(0x01F4, 0x01F5), R(0x01FA, 0x0217), R(0x0250, 0x02A8)
  ]
  const LETTER1: seq<Range> := [
    R(0x02BB, 0x02C1), R(0x0386, 0x0386), R(0x0388, 0x038A), R(0x038C, 0x038C),
    R(0x038E, 0x03A1), R(0x03A3, 0x03CE), R(0x03D0, 0x03D6), R(0x03DA, 0x03DA),
    R(0x03DC, 0x03DC), R(0x03DE, 0x03DE), R(0x03E0, 0x03E0), R(0x03E2, 0x03F3),
    R(0x0401, 0x040C), R(0x040E, 0x044F), R(0x0451, 0x045C), R(0x045E, 0x0481)
  ]
  const LETTER2: seq<Range> := [
    R(0x0490, 0x04C4), R(0x04C7, 0x04C8), R(0x04CB, 0x04CC), R(0x04D0, 0x04EB),
    R(0x04EE, 0x04F5), R(0x04F8, 0x04F9), R(0x0531, 0x0556), R(0x0559, 0x0559),
    R(0x0561, 0x0586), R(0x05D0, 0x05EA), R(0x05F0, 0x05F2), R(0x0621, 0x063A),
    R(0x0641, 0x064A), R(0x0671, 0x06B7), R(0x06BA, 0x06BE), R(0x06C0, 0x06CE)
  ]
  const LETTER3: seq<Range> := [
    R(0x06D0, 0x06D3), R(0x06D5, 0x06D5), R(0x06E5, 0x06E6), R(0x0905, 0x0939),
    R(0x093D, 0x093D), R(0x0958, 0x0961), R(0x0985, 0x098C), R(0x098F, 0x0990),
    R(0x0993, 0x09A8), R(0x09AA, 0x09B0), R(0x09B2, 0x09B2), R(0x09B6, 0x09B9),
    R(0x09DC, 0x09DD), R(0x09DF, 0x09E1), R(0x09F0, 0x09F1), R(0x0A05, 0x0A0A)
  ]
  const LETTER4: seq<Range> := [
    R(0x0A0F, 0x0A10), R(0x0A13, 0x0A28), R(0x0A2A, 0x0A30), R(0x0A32, 0x0A33),
    R(0x0A35, 0x0A36), R(0x0A38, 0x0A39), R(0x0A59, 0x0A5C), R(0x0A5E, 0x0A5E),
    R(0x0A72, 0x0A74), R(0x0A85, 0x0A8B), R(0x0A8D, 0x0A8D), R(0x0A8F, 0x0A91),
    R(0x0A93, 0x0AA8), R(0x0AAA, 0x0AB0), R(0x0AB2, 0x0AB3), R(0x0AB5, 0x0AB9)
  ]
  const LETTER5: seq<Range> := [
    R(0x0ABD, 0x0ABD), R(0x0AE0, 0x0AE0), R(0x0B05, 0x0B0C), R(0x0B0F, 0x0B10),
    R(0x0B13, 0x0B28), R(0x0B2A, 0x0B30), R(0x0B32, 0x0B33), R(0x0B36, 0x0B39),
    R(0x0B3D, 0x0B3D), R(0x0B5C, 0x0B5D), R(0x0B5F, 0x0B61), R(0x0B85, 0x0B8A),
    R(0x0B8E, 0x0B90), R(0x0B92, 0x0B95), R(0x0B99, 0x0B9A), R(0x0B9C, 0x0B9C)
  ]
  const LETTER6: seq<Range> := [
    R(0x0B9E, 0x0B9F), R(0x0BA3, 0x0BA4), R(0x0BA8, 0x0BAA), R(0x0BAE, 0x0BB5),
    R(0x0BB7, 0x0BB9), R(0x0C05, 0x0C0C), R(0x0C0E, 0x0C10), R(0x0C12, 0x0C28),
    R(0x0C2A, 0x0C33), R(0x0C35, 0x0C39), R(0x0C60, 0x0C61), R(0x0C85, 0x0C8C),
    R(0x0C8E, 0x0C90), R(0x0C92, 0x0CA8), R(0x0CAA, 0x0CB3), R(0x0CB5, 0x0CB9)
  ]
  const LETTER7: seq<Range> := [
    R(0x0CDE, 0x0CDE), R(0x0CE0, 0x0CE1), R(0x0D05, 0x0D0C), R(0x0D0E, 0x0D10),
    R(0x0D12, 0x0D28), R(0x0D2A, 0x0D39), R(0x0D60, 0x0D61), R(0x0E01, 0x0E2E),
    R(0x0E30, 0x0E30), R(0x0E32, 0x0E33), R(0x0E40, 0x0E45), R(0x0E81, 0x0E82),
    R(0x0E84, 0x0E84), R(0x0E87, 0x0E88), R(0x0E8A, 0x0E8A), R(0x0E8D, 0x0E8D)
  ]
  const LETTER8: seq<Range> := [
    R(0x0E94, 0x0E97), R(0x0E99, 0x0E9F), R(0x0EA1, 0x0EA3), R(0x0EA5, 0x0EA5),
    R(0x0EA7, 0x0EA7), R(0x0EAA, 0x0EAB), R(0x0EAD, 0x0EAE), R(0x0EB0, 0x0EB0),
    R(0x0EB2, 0x0EB3), R(0x0EBD, 0x0EBD), R(0x0EC0, 0x0EC4), R(0x0F40, 0x0F47),
    R(0x0F49, 0x0F69), R(0x10A0, 0x10C5), R(0x10D0, 0x10F6), R(0x1100, 0x1100)
  ]
  const LETTER9: seq<Range> := [
    R(0x1102, 0x1103), R(0x1105, 0x1107), R(0x1109, 0x1109), R(0x110B, 0x110C),
    R(0x110E, 0x1112), R(0x113C, 0x113C), R(0x113E, 0x113E), R(0x1140, 0x1140),
    R(0x114C, 0x114C), R(0x114E, 0x114E), R(0x1150, 0x1150), R(0x1154, 0x1155),
    R(0x1159, 0x1159), R(0x115F, 0x1161), R(0x1163, 0x1163), R(0x1165, 0x1165)
  ]
  const LETTER10: seq<Range> := [
    R(0x1167, 0x1167), R(0x1169, 0x1169), R(0x116D, 0x116E), R(0x1172, 0x1173),
    R(0x1175, 0x1175), R(0x119E, 0x119E), R(0x11A8, 0x11A8), R(0x11AB, 0x11AB),
    R(0x11AE, 0x11AF), R(0x11B7, 0x11B8), R(0x11BA, 0x11BA), R(0x11BC, 0x11C2),
    R(0x11EB, 0x11EB), R(0x11F0, 0x11F0), R(0x11F9, 0x11F9), R(0x1E00, 0x1E9B)
  ]
  const LETTER11: seq<Range> := [
    R(0x1EA0, 0x1EF9), R(0x1F00, 0x1F15), R(0x1F18, 0x1F1D), R(0x1F20, 0x1F45),
    R(0x1F48, 0x1F4D), R(0x1F50, 0x1F57), R(0x1F59, 0x1F59), R(0x1F5B, 0x1F5B),
    R(0x1F5D, 0x1F5D), R(0x1F5F, 0x1F7D), R(0x1F80, 0x1FB4), R(0x1FB6, 0x1FBC),
    R(0x1FBE, 0x1FBE), R(0x1FC2, 0x1FC4), R(0x1FC6, 0x1FCC), R(0x1FD0, 0x1FD3)
  ]
  const LETTER12: seq<Range> := [
    R(0x1FD6, 0x1FDB), R(0x1FE0, 0x1FEC), R(0x1FF2, 0x1FF4), R(0x1FF6, 0x1FFC),
    R(0x2126, 0x2126), R(0x212A, 0x212B), R(0x212E, 0x212E), R(0x2180, 0x2182),
    R(0x3007, 0x3007), R(0x3021, 0x3029), R(0x3041, 0x3094), R(0x30A1, 0x30FA),
    R(0x3105, 0x312C), R(0x4E00, 0x9FA5), R(0xAC00, 0xD7A3)
  ]

  /** The characters a name can start with. */
  const LETTER: seq<Range> :=
    LETTER0 + LETTER1 + LETTER2 + LETTER3 + LETTER4 + LETTER5 + LETTER6 + LETTER7 + LETTER8 + LETTER9 + LETTER10 + LETTER11 + LETTER12

  const NAME_CHAR0: seq<Range> := [
    R(0x002D, 0x002D), R(0x002E, 0x002E), R(0x0030, 0x0039), R(0x00B7, 0x00B7),
    R(0x02D0, 0x02D0), R(0x02D1, 0x02D1), R(0x0300, 0x0345), R(0x0360, 0x0361),
    R(0x0387, 0x0387), R(0x0483, 0x0486), R(0x0591, 0x05A1), R(0x05A3, 0x05B9),
    R(0x05BB, 0x05BD), R(0x05BF, 0x05BF), R(0x05C1, 0x05C2), R(0x05C4, 0x05C4)
  ]
  const NAME_CHAR1: seq<Range> := [
    R(0x0640, 0x0640), R(0x064B, 0x0652), R(0x0660, 0x0669), R(0x0670, 0x0670),
    R(0x06D6, 0x06DC), R(0x06DD, 0x06DF), R(0x06E0, 0x06E4), R(0x06E7, 0x06E8),
    R(0x06EA, 0x06ED), R(0x06F0, 0x06F9), R(0x0901, 0x0903), R(0x093C, 0x093C),
    R(0x093E, 0x094C), R(0x094D, 0x094D), R(0x0951, 0x0954), R(0x0962, 0x0963)
  ]
  const NAME_CHAR2: seq<Range> := [
    R(0x0966, 0x096F), R(0x0981, 0x0983), R(0x09BC, 0x09BC), R(0x09BE, 0x09BE),
    R(0x09BF, 0x09BF), R(0x09C0, 0x09C4), R(0x09C7, 0x09C8), R(0x09CB, 0x09CD),
    R(0x09D7, 0x09D7), R(0x09E2, 0x09E3), R(0x09E6, 0x09EF), R(0x0A02, 0x0A02),
    R(0x0A3C, 0x0A3C), R(0x0A3E, 0x0A3E), R(0x0A3F, 0x0A3F), R(0x0A40, 0x0A42)
  ]
  const NAME_CHAR3: seq<Range> := [
    R(0x0A47, 0x0A48), R(0x0A4B, 0x0A4D), R(0x0A66, 0x0A6F), R(0x0A70, 0x0A71),
    R(0x0A81, 0x0A83), R(0x0ABC, 0x0ABC), R(0x0ABE, 0x0AC5), R(0x0AC7, 0x0AC9),
    R(0x0ACB, 0x0ACD), R(0x0AE6, 0x0AEF), R(0x0B01, 0x0B03), R(0x0B3C, 0x0B3C),
    R(0x0B3E, 0x0B43), R(0x0B47, 0x0B48), R(0x0B4B, 0x0B4D), R(0x0B56, 0x0B57)
  ]
  const NAME_CHAR4: seq<Range> := [
    R(0x0B66, 0x0B6F), R(0x0B82, 0x0B83), R(0x0BBE, 0x0BC2), R(0x0BC6, 0x0BC8),
    R(0x0BCA, 0x0BCD), R(0x0BD7, 0x0BD7), R(0x0BE7, 0x0BEF), R(0x0C01, 0x0C03),
    R(0x0C3E, 0x0C44), R(0x0C46, 0x0C48), R(0x0C4A, 0x0C4D), R(0x0C55, 0x0C56),
    R(0x0C66, 0x0C6F), R(0x0C82, 0x0C83), R(0x0CBE, 0x0CC4), R(0x0CC6, 0x0CC8)
  ]
  const NAME_CHAR5: seq<Range> := [
    R(0x0CCA, 0x0CCD), R(0x0CD5, 0x0CD6), R(0x0CE6, 0x0CEF), R(0x0D02, 0x0D03),
    R(0x0D3E, 0x0D43), R(0x0D46, 0x0D48), R(0x0D4A, 0x0D4D), R(0x0D57, 0x0D57),
    R(0x0D66, 0x0D6F), R(0x0E31, 0x0E31), R(0x0E34, 0x0E3A), R(0x0E46, 0x0E46),
    R(0x0E47, 0x0E4E), R(0x0E50, 0x0E59), R(0x0EB1, 0x0EB1), R(0x0EB4, 0x0EB9)
  ]
  const NAME_CHAR6: seq<Range> := [
    R(0x0EBB, 0x0EBC), R(0x0EC6, 0x0EC6), R(0x0EC8, 0x0ECD), R(0x0ED0, 0x0ED9),
    R(0x0F18, 0x0F19), R(0x0F20, 0x0F29), R(0x0F35, 0x0F35), R(0x0F37, 0x0F37),
    R(0x0F39, 0x0F39), R(0x0F3E, 0x0F3E), R(0x0F3F, 0x0F3F), R(0x0F71, 0x0F84),
    R(0x0F86, 0x0F8B), R(0x0F90, 0x0F95), R(0x0F97, 0x0F97), R(0x0F99, 0x0FAD)
  ]
  const NAME_CHAR7: seq<Range> := [
    R(0x0FB1, 0x0FB7), R(0x0FB9, 0x0FB9), R(0x20D0, 0x20DC), R(0x20E1, 0x20E1),
    R(0x3005, 0x3005), R(0x302A, 0x302F), R(0x3031, 0x3035), R(0x3099, 0x3099),
    R(0x309A, 0x309A), R(0x309D, 0x309E), R(0x30FC, 0x30FE)
  ]

  /** The further characters a name can go on with. */
  const NAME_CHAR: seq<Range> :=
    NAME_CHAR0 + NAME_CHAR1 + NAME_CHAR2 + NAME_CHAR3 + NAME_CHAR4 + NAME_CHAR5 + NAME_CHAR6 + NAME_CHAR7

  /** Ranges in increasing order without overlap, the shape the binary search relies on. */
  ghost predicate Sorted(tbl: seq<Range>) {
    && (forall i | 0 <= i < |tbl| :: tbl[i].l <= tbl[i].h)
    && (forall i, j | 0 <= i < j < |tbl| :: tbl[i].h < tbl[j].l)
  }

  /** A sorted table whose ranges all lie in lo..hi. */
  ghost predicate SortedIn(tbl: seq<Range>, lo: nat, hi: nat) {
    Sorted(tbl) && forall i | 0 <= i < |tbl| :: lo <= tbl[i].l && tbl[i].h <= hi
  }

  /** Tables in consecutive intervals join to a sorted table. */
  lemma SortedConcat(a: seq<Range>, b: seq<Range>, lo: nat, m: nat, n: nat, hi: nat)
    requires SortedIn(a, lo, m) && SortedIn(b, n, hi) && lo <= m < n <= hi
    ensures SortedIn(a + b, lo, hi)
  {
    assert forall i | 0 <= i < |b| :: (a + b)[|a| + i] == b[i];
  }

  /** The same, seen from one range to the next. */
  predicate Rising(tbl: seq<Range>, lo: nat, hi: nat) {
    forall i | 0 <= i < |tbl| ::
      lo <= tbl[i].l <= tbl[i].h <= hi && (i + 1 < |tbl| ==> tbl[i].h < tbl[i + 1].l)
  }

  lemma {:induction false} RisingTo(tbl: seq<Range>, lo: nat, hi: nat, i: nat, j: nat)
    requires Rising(tbl, lo, hi) && i < j < |tbl|
    ensures tbl[i].h < tbl[j].l
  {
    if i + 1 < j {
      RisingTo(tbl, lo, hi, i, j - 1);
      assert tbl[j - 1].l <= tbl[j - 1].h;
    }
  }

  lemma RisingIsSorted(tbl: seq<Range>, lo: nat, hi: nat)
    requires Rising(tbl, lo, hi)
    ensures SortedIn(tbl, lo, hi)
  {
    forall i, j | 0 <= i < j < |tbl|
      ensures tbl[i].h < tbl[j].l
    {
      RisingTo(tbl, lo, hi, i, j);
    }
  }

  lemma Letter0Sorted()
    ensures SortedIn(LETTER0, 0x003A, 0x02A8)
  {
    RisingIsSorted(LETTER0, 0x003A, 0x02A8);
  }

  lemma Letter1Sorted()
    ensures SortedIn(LETTER1, 0x02BB, 0x0481)
  {
    RisingIsSorted(LETTER1, 0x02BB, 0x0481);
  }

  lemma Letter2Sorted()
    ensures SortedIn(LETTER2, 0x0490, 0x06CE)
  {
    RisingIsSorted(LETTER2, 0x0490, 0x06CE);
  }

  lemma Letter3Sorted()
    ensures SortedIn(LETTER3, 0x06D0, 0x0A0A)
  {
    RisingIsSorted(LETTER3, 0x06D0, 0x0A0A);
  }

  lemma Letter4Sorted()
    ensures SortedIn(LETTER4, 0x0A0F, 0x0AB9)
  {
    RisingIsSorted(LETTER4, 0x0A0F, 0x0AB9);
  }

  lemma Letter5Sorted()
    ensures SortedIn(LETTER5, 0x0ABD, 0x0B9C)
  {
    RisingIsSorted(LETTER5, 0x0ABD, 0x0B9C);
  }

  lemma Letter6Sorted()
    ensures SortedIn(LETTER6, 0x0B9E, 0x0CB9)
  {
    RisingIsSorted(LETTER6, 0x0B9E, 0x0CB9);
  }

  lemma Letter7Sorted()
    ensures SortedIn(LETTER7, 0x0CDE, 0x0E8D)
  {
    RisingIsSorted(LETTER7, 0x0CDE, 0x0E8D);
  }

  lemma Letter8Sorted()
    ensures SortedIn(LETTER8, 0x0E94, 0x1100)
  {
    RisingIsSorted(LETTER8, 0x0E94, 0x1100);
  }

  lemma Letter9Sorted()
    ensures SortedIn(LETTER9, 0x1102, 0x1165)
  {
    RisingIsSorted(LETTER9, 0x1102, 0x1165);
  }

  lemma Letter10Sorted()
    ensures SortedIn(LETTER10, 0x1167, 0x1E9B)
  {
    RisingIsSorted(LETTER10, 0x1167, 0x1E9B);
  }

  lemma Letter11Sorted()
    ensures SortedIn(LETTER11, 0x1EA0, 0x1FD3)
  {
    RisingIsSorted(LETTER11, 0x1EA0, 0x1FD3);
  }

  lemma Letter12Sorted()
    ensures SortedIn(LETTER12, 0x1FD6, 0xD7A3)
  {
    RisingIsSorted(LETTER12, 0x1FD6, 0xD7A3);
  }

  lemma LetterSorted()
    ensures SortedIn(LETTER, 0x003A, 0xD7A3)
  {
    Letter0Sorted();
    Letter1Sorted();
    Letter2Sorted();
    Letter3Sorted();
    Letter4Sorted();
    Letter5Sorted();
    Letter6Sorted();
    Letter7Sorted();
    Letter8Sorted();
    Letter9Sorted();
    Letter10Sorted();
    Letter11Sorted();
    Letter12Sorted();
    SortedConcat(LETTER0, LETTER1, 0x003A, 0x02A8, 0x02BB, 0x0481);
    SortedConcat(LETTER0 + LETTER1, LETTER2, 0x003A, 0x0481, 0x0490, 0x06CE);
    SortedConcat(LETTER0 + LETTER1 + LETTER2, LETTER3, 0x003A, 0x06CE, 0x06D0, 0x0A0A);
    SortedConcat(LETTER0 + LETTER1 + LETTER2 + LETTER3, LETTER4, 0x003A, 0x0A0A, 0x0A0F, 0x0AB9);
    SortedConcat(LETTER0 + LETTER1 + LETTER2 + LETTER3 + LETTER4, LETTER5, 0x003A, 0x0AB9, 0x0ABD, 0x0B9C);
    SortedConcat(LETTER0 + LETTER1 + LETTER2 + LETTER3 + LETTER4 + LETTER5, LETTER6, 0x003A, 0x0B9C, 0x0B9E, 0x0CB9);
    SortedConcat(LETTER0 + LETTER1 + LETTER2 + LETTER3 + LETTER4 + LETTER5 + LETTER6, LETTER7, 0x003A, 0x0CB9, 0x0CDE, 0x0E8D);
    SortedConcat(LETTER0 + LETTER1 + LETTER2 + LETTER3 + LETTER4 + LETTER5 + LETTER6 + LETTER7, LETTER8, 0x003A, 0x0E8D, 0x0E94, 0x1100);
    SortedConcat(LETTER0 + LETTER1 + LETTER2 + LETTER3 + LETTER4 + LETTER5 + LETTER6 + LETTER7 + LETTER8, LETTER9, 0x003A, 0x1100, 0x1102, 0x1165);
    SortedConcat(LETTER0 + LETTER1 + LETTER2 + LETTER3 + LETTER4 + LETTER5 + LETTER6 + LETTER7 + LETTER8 + LETTER9, LETTER10, 0x003A, 0x1165, 0x1167, 0x1E9B);
    SortedConcat(LETTER0 + LETTER1 + LETTER2 + LETTER3 + LETTER4 + LETTER5 + LETTER6 + LETTER7 + LETTER8 + LETTER9 + LETTER10, LETTER11, 0x003A, 0x1E9B, 0x1EA0, 0x1FD3);
    SortedConcat(LETTER0 + LETTER1 + LETTER2 + LETTER3 + LETTER4 + LETTER5 + LETTER6 + LETTER7 + LETTER8 + LETTER9 + LETTER10 + LETTER11, LETTER12, 0x003A, 0x1FD3, 0x1FD6, 0xD7A3);
  }

  lemma NameChar0Sorted()
    ensures SortedIn(NAME_CHAR0, 0x002D, 0x05C4)
  {
    RisingIsSorted(NAME_CHAR0, 0x002D, 0x05C4);
  }

  lemma NameChar1Sorted()
    ensures SortedIn(NAME_CHAR1, 0x0640, 0x0963)
  {
    RisingIsSorted(NAME_CHAR1, 0x0640, 0x0963);
  }

  lemma NameChar2Sorted()
    ensures SortedIn(NAME_CHAR2, 0x0966, 0x0A42)
  {
    RisingIsSorted(NAME_CHAR2, 0x0966, 0x0A42);
  }

  lemma NameChar3Sorted()
    ensures SortedIn(NAME_CHAR3, 0x0A47, 0x0B57)
  {
    RisingIsSorted(NAME_CHAR3, 0x0A47, 0x0B57);
  }

  lemma NameChar4Sorted()
    ensures SortedIn(NAME_CHAR4, 0x0B66, 0x0CC8)
  {
    RisingIsSorted(NAME_CHAR4, 0x0B66, 0x0CC8);
  }

  lemma NameChar5Sorted()
    ensures SortedIn(NAME_CHAR5, 0x0CCA, 0x0EB9)
  {
    RisingIsSorted(NAME_CHAR5, 0x0CCA, 0x0EB9);
  }

  lemma NameChar6Sorted()
    ensures SortedIn(NAME_CHAR6, 0x0EBB, 0x0FAD)
  {
    RisingIsSorted(NAME_CHAR6, 0x0EBB, 0x0FAD);
  }

  lemma NameChar7Sorted()
    ensures SortedIn(NAME_CHAR7, 0x0FB1, 0x30FE)
  {
    RisingIsSorted(NAME_CHAR7, 0x0FB1, 0x30FE);
  }

  lemma NameCharSorted()
    ensures SortedIn(NAME_CHAR, 0x002D, 0x30FE)
  {
    NameChar0Sorted();
    NameChar1Sorted();
    NameChar2Sorted();
    NameChar3Sorted();
    NameChar4Sorted();
    NameChar5Sorted();
    NameChar6Sorted();
    NameChar7Sorted();
    SortedConcat(NAME_CHAR0, NAME_CHAR1, 0x002D, 0x05C4, 0x0640, 0x0963);
    SortedConcat(NAME_CHAR0 + NAME_CHAR1, NAME_CHAR2, 0x002D, 0x0963, 0x0966, 0x0A42);
    SortedConcat(NAME_CHAR0 + NAME_CHAR1 + NAME_CHAR2, NAME_CHAR3, 0x002D, 0x0A42, 0x0A47, 0x0B57);
    SortedConcat(NAME_CHAR0 + NAME_CHAR1 + NAME_CHAR2 + NAME_CHAR3, NAME_CHAR4, 0x002D, 0x0B57, 0x0B66, 0x0CC8);
    SortedConcat(NAME_CHAR0 + NAME_CHAR1 + NAME_CHAR2 + NAME_CHAR3 + NAME_CHAR4, NAME_CHAR5, 0x002D, 0x0CC8, 0x0CCA, 0x0EB9);
    SortedConcat(NAME_CHAR0 + NAME_CHAR1 + NAME_CHAR2 + NAME_CHAR3 + NAME_CHAR4 + NAME_CHAR5, NAME_CHAR6, 0x002D, 0x0EB9, 0x0EBB, 0x0FAD);
    SortedConcat(NAME_CHAR0 + NAME_CHAR1 + NAME_CHAR2 + NAME_CHAR3 + NAME_CHAR4 + NAME_CHAR5 + NAME_CHAR6, NAME_CHAR7, 0x002D, 0x0FAD, 0x0FB1, 0x30FE);
  }

  /** c lies in one of the ranges of tbl. */
  predicate InTable(c: int, tbl: seq<Range>) {
    exists i | 0 <= i < |tbl| :: tbl[i].l <= c <= tbl[i].h
  }

  /**
   * Parser_isCharInTable. The search starts with b = sz, one slot behind the table; that slot is
   * probed only for c above the last range, and the model counts such a probe as a miss.
   */
  method IsCharInTable(c: int, tbl: seq<Range>) returns (found: bool)
    requires Sorted(tbl) && tbl != []
    ensures found <==> InTable(c, tbl)
  {
    var t, b := 0, |tbl|;
    while t <= b
      invariant 0 <= t && -1 <= b <= |tbl|
      invariant c <= tbl[|tbl| - 1].h ==> t < |tbl|
      invariant forall i | 0 <= i < t && i < |tbl| :: tbl[i].h < c
      invariant forall i | b < i < |tbl| :: c < tbl[i].l
      decreases b - t
    {
      var m := (t + b) / 2;
      assert c <= tbl[|tbl| - 1].h ==> m < |tbl|;
      if m == |tbl| || c < tbl[m].l {
        b := m - 1;
      } else if c > tbl[m].h {
        t := m + 1;
      } else {
        return true;
      }
    }
    return false;
  }

  /** Parser_isNameChar(c, bNameChar); every name character is an XML character. */
  predicate IsNameChar(c: int, bNameChar: bool): (r: bool)
    ensures r ==> IsXmlChar(c) && c >= 0x2D
  {
    LetterSorted();
    NameCharSorted();
    InTable(c, LETTER) || (bNameChar && InTable(c, NAME_CHAR))
  }

  method ParserIsNameChar(c: int, bNameChar: bool) returns (r: bool)
    ensures r <==> IsNameChar(c, bNameChar)
  {
    LetterSorted();
    NameCharSorted();
    r := IsCharInTable(c, LETTER);
    if r {
      return true;
    }
    if bNameChar {
      r := IsCharInTable(c, NAME_CHAR);
    }
  }

  lemma AsciiLetters(c: int)
    requires c < 0x80
    ensures InTable(c, LETTER) <==> c == 0x3A || 0x41 <= c <= 0x5A || c == 0x5F || 0x61 <= c <= 0x7A
  {
    LetterSorted();
    assert LETTER[0] == R(0x3A, 0x3A) && LETTER[1] == R(0x41, 0x5A);
    assert LETTER[2] == R(0x5F, 0x5F) && LETTER[3] == R(0x61, 0x7A) && LETTER[4].l == 0xC0;
    assert forall i | 4 <= i < |LETTER| :: 0xC0 <= LETTER[i].l;
  }

  lemma AsciiOthers(c: int)
    requires c < 0x80
    ensures InTable(c, NAME_CHAR) <==> c == 0x2D || c == 0x2E || 0x30 <= c <= 0x39
  {
    NameCharSorted();
    assert NAME_CHAR[0] == R(0x2D, 0x2D) && NAME_CHAR[1] == R(0x2E, 0x2E);
    assert NAME_CHAR[2] == R(0x30, 0x39) && NAME_CHAR[3].l == 0xB7;
    assert forall i | 3 <= i < |NAME_CHAR| :: 0xB7 <= NAME_CHAR[i].l;
  }

  /** The ASCII part of the two classes. */
  lemma AsciiNameChars(c: int)
    requires c < 0x80
    ensures IsNameChar(c, false) <==> c == 0x3A || 0x41 <= c <= 0x5A || c == 0x5F || 0x61 <= c <= 0x7A
    ensures IsNameChar(c, true) <==> IsNameChar(c, false) || c == 0x2D || c == 0x2E || 0x30 <= c <= 0x39
  {
    hide InTable;
    AsciiLetters(c);
    AsciiOthers(c);
  }
}
