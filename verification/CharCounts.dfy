/**
 * How many characters the two tables of name characters hold (src/ixml/ixmlparser.c:78-215).
 */
module CharCounts {
  import opened XmlChars

  /** The characters in the first k ranges. */
  function Size(t: seq<Range>, k: nat): int
    requires k <= |t|
  {
    if k == 0 then 0 else Size(t, k - 1) + (t[k - 1].h - t[k - 1].l + 1)
  }

  lemma {:induction false} SizeConcat(a: seq<Range>, b: seq<Range>, k: nat)
    requires k <= |b|
    ensures Size(a + b, |a| + k) == Size(a, |a|) + Size(b, k)
    decreases k
  {
    if k == 0 {
      SizePrefix(a, b, |a|);
    } else {
      SizeConcat(a, b, k - 1);
    }
  }

  lemma {:induction false} SizePrefix(a: seq<Range>, b: seq<Range>, k: nat)
    requires k <= |a|
    ensures Size(a + b, k) == Size(a, k)
    decreases k
  {
    if k > 0 {
      SizePrefix(a, b, k - 1);
    }
  }

  lemma NoRanges(t: seq<Range>)
    ensures Size(t, 0) == 0
  {
  }

  lemma OneMore(t: seq<Range>, k: nat)
    requires k < |t|
    ensures Size(t, k + 1) == Size(t, k) + (t[k].h - t[k].l + 1)
  {
  }

  lemma FourMore(t: seq<Range>, k: nat)
    requires k + 4 <= |t|
    ensures Size(t, k + 4) == Size(t, k) + (t[k].h - t[k].l) + (t[k + 1].h - t[k + 1].l) + (t[k + 2].h - t[k + 2].l)
                              + (t[k + 3].h - t[k + 3].l) + 4
  {
    OneMore(t, k);
    OneMore(t, k + 1);
    OneMore(t, k + 2);
    OneMore(t, k + 3);
  }

  predicate Holds(t: seq<Range>, n: int) {
    Size(t, |t|) == n
  }

  lemma HoldsBoth(a: seq<Range>, m: int, b: seq<Range>, n: int)
    requires Holds(a, m) && Holds(b, n)
    ensures Holds(a + b, m + n)
  {
    SizeConcat(a, b, |b|);
  }

  lemma Letter0Holds()
    ensures Holds(LETTER0, 463)
  {
    hide Size;
    NoRanges(LETTER0);
    FourMore(LETTER0, 0);
    FourMore(LETTER0, 4);
    FourMore(LETTER0, 8);
    FourMore(LETTER0, 12);
  }

  lemma Letter1Holds()
    ensures Holds(LETTER1, 231)
  {
    hide Size;
    NoRanges(LETTER1);
    FourMore(LETTER1, 0);
    FourMore(LETTER1, 4);
    FourMore(LETTER1, 8);
    FourMore(LETTER1, 12);
  }

  lemma Letter2Holds()
    ensures Holds(LETTER2, 329)
  {
    hide Size;
    NoRanges(LETTER2);
    FourMore(LETTER2, 0);
    FourMore(LETTER2, 4);
    FourMore(LETTER2, 8);
    FourMore(LETTER2, 12);
  }

  lemma Letter3Holds()
    ensures Holds(LETTER3, 128)
  {
    hide Size;
    NoRanges(LETTER3);
    FourMore(LETTER3, 0);
    FourMore(LETTER3, 4);
    FourMore(LETTER3, 8);
    FourMore(LETTER3, 12);
  }

  lemma Letter4Holds()
    ensures Holds(LETTER4, 92)
  {
    hide Size;
    NoRanges(LETTER4);
    FourMore(LETTER4, 0);
    FourMore(LETTER4, 4);
    FourMore(LETTER4, 8);
    FourMore(LETTER4, 12);
  }

  lemma Letter5Holds()
    ensures Holds(LETTER5, 69)
  {
    hide Size;
    NoRanges(LETTER5);
    FourMore(LETTER5, 0);
    FourMore(LETTER5, 4);
    FourMore(LETTER5, 8);
    FourMore(LETTER5, 12);
  }

  lemma Letter6Holds()
    ensures Holds(LETTER6, 118)
  {
    hide Size;
    NoRanges(LETTER6);
    FourMore(LETTER6, 0);
    FourMore(LETTER6, 4);
    FourMore(LETTER6, 8);
    FourMore(LETTER6, 12);
  }

  lemma Letter7Holds()
    ensures Holds(LETTER7, 117)
  {
    hide Size;
    NoRanges(LETTER7);
    FourMore(LETTER7, 0);
    FourMore(LETTER7, 4);
    FourMore(LETTER7, 8);
    FourMore(LETTER7, 12);
  }

  lemma Letter8Holds()
    ensures Holds(LETTER8, 148)
  {
    hide Size;
    NoRanges(LETTER8);
    FourMore(LETTER8, 0);
    FourMore(LETTER8, 4);
    FourMore(LETTER8, 8);
    FourMore(LETTER8, 12);
  }

  lemma Letter9Holds()
    ensures Holds(LETTER9, 27)
  {
    hide Size;
    NoRanges(LETTER9);
    FourMore(LETTER9, 0);
    FourMore(LETTER9, 4);
    FourMore(LETTER9, 8);
    FourMore(LETTER9, 12);
  }

  lemma Letter10Holds()
    ensures Holds(LETTER10, 181)
  {
    hide Size;
    NoRanges(LETTER10);
    FourMore(LETTER10, 0);
    FourMore(LETTER10, 4);
    FourMore(LETTER10, 8);
    FourMore(LETTER10, 12);
  }

  lemma Letter11Holds()
    ensures Holds(LETTER11, 279)
  {
    hide Size;
    NoRanges(LETTER11);
    FourMore(LETTER11, 0);
    FourMore(LETTER11, 4);
    FourMore(LETTER11, 8);
    FourMore(LETTER11, 12);
  }

  lemma Letter12Holds()
    ensures Holds(LETTER12, 32334)
  {
    hide Size;
    NoRanges(LETTER12);
    FourMore(LETTER12, 0);
    FourMore(LETTER12, 4);
    FourMore(LETTER12, 8);
    OneMore(LETTER12, 12);
    OneMore(LETTER12, 13);
    OneMore(LETTER12, 14);
  }

  lemma NameChar0Holds()
    ensures Holds(NAME_CHAR0, 139)
  {
    hide Size;
    NoRanges(NAME_CHAR0);
    FourMore(NAME_CHAR0, 0);
    FourMore(NAME_CHAR0, 4);
    FourMore(NAME_CHAR0, 8);
    FourMore(NAME_CHAR0, 12);
  }

  lemma NameChar1Holds()
    ensures Holds(NAME_CHAR1, 77)
  {
    hide Size;
    NoRanges(NAME_CHAR1);
    FourMore(NAME_CHAR1, 0);
    FourMore(NAME_CHAR1, 4);
    FourMore(NAME_CHAR1, 8);
    FourMore(NAME_CHAR1, 12);
  }

  lemma NameChar2Holds()
    ensures Holds(NAME_CHAR2, 46)
  {
    hide Size;
    NoRanges(NAME_CHAR2);
    FourMore(NAME_CHAR2, 0);
    FourMore(NAME_CHAR2, 4);
    FourMore(NAME_CHAR2, 8);
    FourMore(NAME_CHAR2, 12);
  }

  lemma NameChar3Holds()
    ensures Holds(NAME_CHAR3, 62)
  {
    hide Size;
    NoRanges(NAME_CHAR3);
    FourMore(NAME_CHAR3, 0);
    FourMore(NAME_CHAR3, 4);
    FourMore(NAME_CHAR3, 8);
    FourMore(NAME_CHAR3, 12);
  }

  lemma NameChar4Holds()
    ensures Holds(NAME_CHAR4, 75)
  {
    hide Size;
    NoRanges(NAME_CHAR4);
    FourMore(NAME_CHAR4, 0);
    FourMore(NAME_CHAR4, 4);
    FourMore(NAME_CHAR4, 8);
    FourMore(NAME_CHAR4, 12);
  }

  lemma NameChar5Holds()
    ensures Holds(NAME_CHAR5, 76)
  {
    hide Size;
    NoRanges(NAME_CHAR5);
    FourMore(NAME_CHAR5, 0);
    FourMore(NAME_CHAR5, 4);
    FourMore(NAME_CHAR5, 8);
    FourMore(NAME_CHAR5, 12);
  }

  lemma NameChar6Holds()
    ensures Holds(NAME_CHAR6, 90)
  {
    hide Size;
    NoRanges(NAME_CHAR6);
    FourMore(NAME_CHAR6, 0);
    FourMore(NAME_CHAR6, 4);
    FourMore(NAME_CHAR6, 8);
    FourMore(NAME_CHAR6, 12);
  }

  lemma NameChar7Holds()
    ensures Holds(NAME_CHAR7, 41)
  {
    hide Size;
    NoRanges(NAME_CHAR7);
    FourMore(NAME_CHAR7, 0);
    FourMore(NAME_CHAR7, 4);
    OneMore(NAME_CHAR7, 8);
    OneMore(NAME_CHAR7, 9);
    OneMore(NAME_CHAR7, 10);
  }

  /** The characters a name can start with. */
  lemma LetterHolds()
    ensures Holds(LETTER, 34516)
  {
    hide Holds;
    Letter0Holds();
    Letter1Holds();
    Letter2Holds();
    Letter3Holds();
    Letter4Holds();
    Letter5Holds();
    Letter6Holds();
    Letter7Holds();
    Letter8Holds();
    Letter9Holds();
    Letter10Holds();
    Letter11Holds();
    Letter12Holds();
    HoldsBoth(LETTER0, 463, LETTER1, 231);
    HoldsBoth(LETTER0 + LETTER1, 694, LETTER2, 329);
    HoldsBoth(LETTER0 + LETTER1 + LETTER2, 1023, LETTER3, 128);
    HoldsBoth(LETTER0 + LETTER1 + LETTER2 + LETTER3, 1151, LETTER4, 92);
    HoldsBoth(LETTER0 + LETTER1 + LETTER2 + LETTER3 + LETTER4, 1243, LETTER5, 69);
    HoldsBoth(LETTER0 + LETTER1 + LETTER2 + LETTER3 + LETTER4 + LETTER5, 1312, LETTER6, 118);
    HoldsBoth(LETTER0 + LETTER1 + LETTER2 + LETTER3 + LETTER4 + LETTER5 + LETTER6, 1430, LETTER7, 117);
    HoldsBoth(LETTER0 + LETTER1 + LETTER2 + LETTER3 + LETTER4 + LETTER5 + LETTER6 + LETTER7, 1547, LETTER8, 148);
    HoldsBoth(LETTER0 + LETTER1 + LETTER2 + LETTER3 + LETTER4 + LETTER5 + LETTER6 + LETTER7 + LETTER8, 1695, LETTER9, 27);
    HoldsBoth(LETTER0 + LETTER1 + LETTER2 + LETTER3 + LETTER4 + LETTER5 + LETTER6 + LETTER7 + LETTER8 + LETTER9, 1722, LETTER10, 181);
    HoldsBoth(LETTER0 + LETTER1 + LETTER2 + LETTER3 + LETTER4 + LETTER5 + LETTER6 + LETTER7 + LETTER8 + LETTER9 + LETTER10, 1903, LETTER11, 279);
    HoldsBoth(LETTER0 + LETTER1 + LETTER2 + LETTER3 + LETTER4 + LETTER5 + LETTER6 + LETTER7 + LETTER8 + LETTER9 + LETTER10 + LETTER11, 2182, LETTER12, 32334);
  }

  /** The further characters a name can go on with. */
  lemma NameCharHolds()
    ensures Holds(NAME_CHAR, 606)
  {
    hide Holds;
    NameChar0Holds();
    NameChar1Holds();
    NameChar2Holds();
    NameChar3Holds();
    NameChar4Holds();
    NameChar5Holds();
    NameChar6Holds();
    NameChar7Holds();
    HoldsBoth(NAME_CHAR0, 139, NAME_CHAR1, 77);
    HoldsBoth(NAME_CHAR0 + NAME_CHAR1, 216, NAME_CHAR2, 46);
    HoldsBoth(NAME_CHAR0 + NAME_CHAR1 + NAME_CHAR2, 262, NAME_CHAR3, 62);
    HoldsBoth(NAME_CHAR0 + NAME_CHAR1 + NAME_CHAR2 + NAME_CHAR3, 324, NAME_CHAR4, 75);
    HoldsBoth(NAME_CHAR0 + NAME_CHAR1 + NAME_CHAR2 + NAME_CHAR3 + NAME_CHAR4, 399, NAME_CHAR5, 76);
    HoldsBoth(NAME_CHAR0 + NAME_CHAR1 + NAME_CHAR2 + NAME_CHAR3 + NAME_CHAR4 + NAME_CHAR5, 475, NAME_CHAR6, 90);
    HoldsBoth(NAME_CHAR0 + NAME_CHAR1 + NAME_CHAR2 + NAME_CHAR3 + NAME_CHAR4 + NAME_CHAR5 + NAME_CHAR6, 565, NAME_CHAR7, 41);
  }
}
