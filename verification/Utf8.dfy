/**
 * UTF-8 as the parser encodes and decodes it (src/ixml/ixmlparser.c:370-477): sequences of
 * one to six octets, section 2 of RFC 2279. Shifts and masks on non-negative values are
 * written as division and remainder by powers of two: `c >> 6` is `c / 0x40`, `c & 0x3f` is
 * `c % 0x40`, and `0x80 | x` for x < 0x40 is `0x80 + x`.
 */
module Utf8 {
  import opened CStrings

  /** c >> 6; a shift by 12, 18, 24 or 30 is this shift repeated. */
  function Shr6(c: nat): nat {
    c / 0x40
  }

  /** A continuation octet 10xxxxxx carrying the low six bits of c. */
  function Tail(c: nat): Byte {
    0x80 + c % 0x40
  }

  /** (b & 0xc0) == 0x80 */
  predicate IsTail(b: Byte) {
    0x80 <= b < 0xC0
  }

  /** (hi << 6) | (b & 0x3f) */
  function Join(hi: nat, b: Byte): nat {
    hi * 0x40 + b % 0x40
  }

  /** Parser_intToUTF8; the empty sequence stands for the returned length 0. */
  function IntToUtf8(c: int): (r: Bytes)
    ensures r == [] <==> c < 0 || c > 0x7FFFFFFF
    ensures |r| <= 6
  {
    if c < 0 then []
    else
      var c1 := Shr6(c);
      var c2 := Shr6(c1);
      var c3 := Shr6(c2);
      var c4 := Shr6(c3);
      var c5 := Shr6(c4);
      if c <= 127 then [c]
      else if c <= 0x07FF then [0xC0 + c1, Tail(c)]
      else if c <= 0xFFFF then [0xE0 + c2, Tail(c1), Tail(c)]
      else if c <= 0x1FFFFF then [0xF0 + c3, Tail(c2), Tail(c1), Tail(c)]
      else if c <= 0x3FFFFFF then [0xF8 + c4, Tail(c3), Tail(c2), Tail(c1), Tail(c)]
      else if c <= 0x7FFFFFFF then [0xFC + c5, Tail(c4), Tail(c3), Tail(c2), Tail(c1), Tail(c)]
      else []
  }

  /** Parser_UTF8ToInt in strict mode: the value and its octet count, or (-1, 0). */
  function Utf8ToInt(s: Bytes): (r: (int, nat))
    ensures r.1 <= 6 && (r.1 == 0 <==> r.0 == -1) && r.0 >= -1
    ensures r.1 > 1 ==> r.1 <= |s|
    ensures s != [] ==> r.1 <= |s|
  {
    var c := At(s, 0);
    var s1, s2, s3, s4, s5 := At(s, 1), At(s, 2), At(s, 3), At(s, 4), At(s, 5);
    if c <= 127 then (c, 1)
    else if 0xC0 <= c < 0xE0 && IsTail(s1) then
      (Join(c % 0x20, s1), 2)
    else if 0xE0 <= c < 0xF0 && IsTail(s1) && IsTail(s2) then
      (Join(Join(c % 0x10, s1), s2), 3)
    else if 0xF0 <= c < 0xF8 && IsTail(s1) && IsTail(s2) && IsTail(s3) then
      (Join(Join(Join(c % 0x8, s1), s2), s3), 4)
    else if 0xF8 <= c < 0xFC && IsTail(s1) && IsTail(s2) && IsTail(s3) && IsTail(s4) then
      (Join(Join(Join(Join(c % 0x4, s1), s2), s3), s4), 5)
    else if 0xFC <= c < 0xFE && IsTail(s1) && IsTail(s2) && IsTail(s3) && IsTail(s4) && IsTail(s5) then
      (Join(Join(Join(Join(Join(c % 0x2, s1), s2), s3), s4), s5), 6)
    else (-1, 0)
  }

  /** Putting the low six bits back behind the rest gives the value. */
  lemma JoinTail(c: nat)
    ensures Join(Shr6(c), Tail(c)) == c && IsTail(Tail(c))
  {
  }

  /** A lead octet with the tag and payload x of an n-octet sequence, followed by n - 1 continuation octets. */
  predicate Sequence(s: Bytes, tag: Byte, x: nat, n: nat) {
    At(s, 0) == tag + x && forall i: nat | 1 <= i < n :: IsTail(At(s, i))
  }

  lemma Decode2(s: Bytes, x: nat)
    requires x < 0x20 && Sequence(s, 0xC0, x, 2)
    ensures Utf8ToInt(s) == (Join(x, At(s, 1)), 2)
  {
  }

  lemma Decode3(s: Bytes, x: nat)
    requires x < 0x10 && Sequence(s, 0xE0, x, 3)
    ensures Utf8ToInt(s) == (Join(Join(x, At(s, 1)), At(s, 2)), 3)
  {
  }

  lemma Decode4(s: Bytes, x: nat)
    requires x < 0x8 && Sequence(s, 0xF0, x, 4)
    ensures Utf8ToInt(s) == (Join(Join(Join(x, At(s, 1)), At(s, 2)), At(s, 3)), 4)
  {
  }

  lemma Decode5(s: Bytes, x: nat)
    requires x < 0x4 && Sequence(s, 0xF8, x, 5)
    ensures Utf8ToInt(s) == (Join(Join(Join(Join(x, At(s, 1)), At(s, 2)), At(s, 3)), At(s, 4)), 5)
  {
  }

  lemma Decode6(s: Bytes, x: nat)
    requires x < 0x2 && Sequence(s, 0xFC, x, 6)
    ensures Utf8ToInt(s) == (Join(Join(Join(Join(Join(x, At(s, 1)), At(s, 2)), At(s, 3)), At(s, 4)), At(s, 5)), 6)
  {
  }

  /** Decoding reads back every encoded value, whatever bytes follow it. */
  lemma DecodeEncode(c: int, t: Bytes)
    requires 0 <= c <= 0x7FFFFFFF
    ensures Utf8ToInt(IntToUtf8(c) + t) == (c, |IntToUtf8(c)|)
  {
    var s := IntToUtf8(c) + t;
    assert forall i: nat | i < |IntToUtf8(c)| :: At(s, i) == IntToUtf8(c)[i];
    var c1 := Shr6(c);
    var c2 := Shr6(c1);
    JoinTail(c);
    JoinTail(c1);
    if 127 < c <= 0x7FF {
      Decode2(s, c1);
    } else if 0x7FF < c <= 0xFFFF {
      Decode3(s, c2);
    } else if 0xFFFF < c {
      DecodeEncodeLong(c, s);
    }
  }

  lemma DecodeEncodeLonger(c: int, s: Bytes, c4: nat)
    requires 0x1FFFFF < c <= 0x7FFFFFFF && c4 == Shr6(Shr6(Shr6(Shr6(c))))
    requires forall i: nat | i < |IntToUtf8(c)| :: At(s, i) == IntToUtf8(c)[i]
    ensures Utf8ToInt(s) == (c, |IntToUtf8(c)|)
  {
    hide Utf8ToInt, Join, Tail, IsTail;
    var c1 := Shr6(c);
    var c2 := Shr6(c1);
    var c3 := Shr6(c2);
    JoinTail(c);
    JoinTail(c1);
    JoinTail(c2);
    JoinTail(c3);
    JoinTail(c4);
    if c <= 0x3FFFFFF {
      Decode5(s, c4);
    } else {
      Decode6(s, Shr6(c4));
    }
  }

  lemma DecodeEncodeLong(c: int, s: Bytes)
    requires 0xFFFF < c <= 0x7FFFFFFF
    requires forall i: nat | i < |IntToUtf8(c)| :: At(s, i) == IntToUtf8(c)[i]
    ensures Utf8ToInt(s) == (c, |IntToUtf8(c)|)
  {
    hide Utf8ToInt, Join, Tail, IsTail;
    var c1 := Shr6(c);
    var c2 := Shr6(c1);
    var c3 := Shr6(c2);
    JoinTail(c);
    JoinTail(c1);
    JoinTail(c2);
    if c <= 0x1FFFFF {
      Decode4(s, c3);
    } else {
      JoinTail(c3);
      DecodeEncodeLonger(c, s, Shr6(c3));
    }
  }

  /** The encoding is injective. */
  lemma EncodeInjective(c: int, d: int)
    requires 0 <= c <= 0x7FFFFFFF && 0 <= d <= 0x7FFFFFFF
    requires IntToUtf8(c) == IntToUtf8(d)
    ensures c == d
  {
    DecodeEncode(c, []);
    DecodeEncode(d, []);
  }

  /** The encoding is prefix-free: no encoded value is a prefix of another one. */
  lemma EncodePrefixFree(c: int, d: int)
    requires 0 <= c <= 0x7FFFFFFF && 0 <= d <= 0x7FFFFFFF
    requires IntToUtf8(c) <= IntToUtf8(d)
    ensures c == d
  {
    var t := IntToUtf8(d)[|IntToUtf8(c)|..];
    assert IntToUtf8(d) == IntToUtf8(c) + t;
    DecodeEncode(c, t);
    assert IntToUtf8(d) + [] == IntToUtf8(d);
    DecodeEncode(d, []);
  }

  /** A value decoded from within n is decoded the same way when more bytes follow n. */
  lemma DecodeLocal(n: Bytes, t: Bytes)
    requires n != [] && Utf8ToInt(n).1 > 0
    ensures Utf8ToInt(n + t) == Utf8ToInt(n)
  {
    assert forall i: nat | i < |n| :: At(n + t, i) == At(n, i);
  }

  /** Encodings of every length; those of one to three octets are examples of section 4 of RFC 2279. */
  lemma KnownEncodings()
    ensures IntToUtf8(0x41) == [0x41] && IntToUtf8(0x391) == [0xCE, 0x91] && IntToUtf8(0x2262) == [0xE2, 0x89, 0xA2]
    ensures IntToUtf8(0x65E5) == [0xE6, 0x97, 0xA5] && IntToUtf8(0x1D11E) == [0xF0, 0x9D, 0x84, 0x9E]
    ensures IntToUtf8(0x200001) == [0xF8, 0x88, 0x80, 0x80, 0x81]
    ensures IntToUtf8(0x7FFFFFFE) == [0xFD, 0xBF, 0xBF, 0xBF, 0xBF, 0xBE]
  {
  }

  // ---- the forms of a value ----

  /** v without its k lowest digits to the base 64. */
  function Above(v: nat, k: nat): nat {
    if k == 0 then v else Above(v / 0x40, k - 1)
  }

  /** The k lowest digits, one to an octet. */
  function Digits64(v: nat, k: nat): (r: Bytes)
    ensures |r| == k
  {
    if k == 0 then [] else Digits64(v / 0x40, k - 1) + [0x80 + v % 0x40]
  }

  /** The first of n octets without its payload, and the limit of what n can carry: section 2 of RFC 2279. */
  const LEADS: seq<Byte> := [0, 0, 0xC0, 0xE0, 0xF0, 0xF8, 0xFC]
  const LIMITS: seq<nat> := [0, 0x80, 0x800, 0x1_0000, 0x20_0000, 0x400_0000, 0x8000_0000]

  /** The value in n octets, as few as possible or not. */
  predicate IsForm(s: Bytes, v: nat, n: nat) {
    && 1 <= n <= 6 && n <= |s| && v < LIMITS[n]
    && s[0] == LEADS[n] + Above(v, n - 1) && s[1..n] == Digits64(v, n - 1)
  }

  /** A continuation octet carries the lowest digit. */
  lemma Joined(hi: nat, b: Byte)
    requires IsTail(b)
    ensures Join(hi, b) / 0x40 == hi && 0x80 + Join(hi, b) % 0x40 == b
  {
  }

  /** One digit more. */
  lemma JoinedDigits(hi: nat, s: Bytes, k: nat)
    requires k + 1 < |s| && s[1..k + 1] == Digits64(hi, k) && IsTail(s[k + 1])
    ensures s[1..k + 2] == Digits64(Join(hi, s[k + 1]), k + 1)
    ensures Above(Join(hi, s[k + 1]), k + 1) == Above(hi, k)
  {
    Joined(hi, s[k + 1]);
    assert s[1..k + 2] == s[1..k + 1] + [s[k + 1]];
  }

  lemma FormDigit(s: Bytes, v: nat, k: nat)
    requires k + 1 < |s| && s[1..k + 2] == Digits64(v, k + 1)
    ensures s[1..k + 1] == Digits64(v / 0x40, k) && IsTail(s[k + 1]) && Join(v / 0x40, s[k + 1]) == v
  {
    assert s[1..k + 2] == s[1..k + 1] + [s[k + 1]];
    var r := Digits64(v / 0x40, k) + [0x80 + v % 0x40];
    assert s[1..k + 1] == r[..k] && s[k + 1] == r[k];
  }

  /** The payload of the first octet and the digits behind it, joined. */
  function Joining(x: nat, s: Bytes, k: nat): nat {
    if k == 0 then x else Join(Joining(x, s, k - 1), At(s, k))
  }

  predicate Tails(s: Bytes, n: nat) {
    n <= |s| && forall i | 1 <= i < n :: IsTail(s[i])
  }

  lemma {:induction false} JoiningForm(x: nat, s: Bytes, k: nat)
    requires Tails(s, k + 1)
    ensures s[1..k + 1] == Digits64(Joining(x, s, k), k) && Above(Joining(x, s, k), k) == x
  {
    if k > 0 {
      JoiningForm(x, s, k - 1);
      JoinedDigits(Joining(x, s, k - 1), s, k - 1);
    }
  }

  lemma {:induction false} FormJoining(v: nat, s: Bytes, k: nat)
    requires k < |s| && s[1..k + 1] == Digits64(v, k)
    ensures Tails(s, k + 1) && Joining(Above(v, k), s, k) == v
  {
    if k > 0 {
      FormDigit(s, v, k - 1);
      FormJoining(v / 0x40, s, k - 1);
    }
  }

  /** What the first octet of n may be, and its payload. */
  predicate Leads(b: Byte, n: nat) {
    1 <= n <= 6 && LEADS[n] <= b < [0, 0x80, 0xE0, 0xF0, 0xF8, 0xFC, 0xFE][n]
  }

  lemma TailsAre(s: Bytes)
    requires s != []
    ensures Tails(s, 1)
    ensures Tails(s, 2) <==> IsTail(At(s, 1))
    ensures Tails(s, 3) <==> IsTail(At(s, 1)) && IsTail(At(s, 2))
    ensures Tails(s, 4) <==> IsTail(At(s, 1)) && IsTail(At(s, 2)) && IsTail(At(s, 3))
    ensures Tails(s, 5) <==> IsTail(At(s, 1)) && IsTail(At(s, 2)) && IsTail(At(s, 3)) && IsTail(At(s, 4))
    ensures Tails(s, 6) <==>
              IsTail(At(s, 1)) && IsTail(At(s, 2)) && IsTail(At(s, 3)) && IsTail(At(s, 4)) && IsTail(At(s, 5))
  {
    assert forall i: nat | i < |s| :: At(s, i) == s[i];
    assert forall i: nat | i >= |s| :: !IsTail(At(s, i));
  }

  lemma JoiningIs(x: nat, s: Bytes)
    ensures Joining(x, s, 0) == x && Joining(x, s, 1) == Join(x, At(s, 1))
    ensures Joining(x, s, 2) == Join(Join(x, At(s, 1)), At(s, 2))
    ensures Joining(x, s, 3) == Join(Join(Join(x, At(s, 1)), At(s, 2)), At(s, 3))
    ensures Joining(x, s, 4) == Join(Join(Join(Join(x, At(s, 1)), At(s, 2)), At(s, 3)), At(s, 4))
    ensures Joining(x, s, 5) == Join(Join(Join(Join(Join(x, At(s, 1)), At(s, 2)), At(s, 3)), At(s, 4)), At(s, 5))
  {
    hide Join;
  }

  lemma DecodeSteps(s: Bytes, n: nat)
    requires s != []
    ensures Utf8ToInt(s).1 == n > 0 <==> Leads(s[0], n) && Tails(s, n)
    ensures Leads(s[0], n) && Tails(s, n) ==> Utf8ToInt(s).0 == Joining(s[0] - LEADS[n], s, n - 1)
  {
    hide Join, IsTail, Joining, Tails;
    TailsAre(s);
    if Leads(s[0], n) {
      JoiningIs(s[0] - LEADS[n], s);
    }
  }

  /** n octets carry no more than their limit. */
  lemma {:induction false} JoiningBound(x: nat, s: Bytes, k: nat, limit: nat)
    requires x < limit
    ensures Joining(x, s, k) < Shl(limit, k)
  {
    if k > 0 {
      JoiningBound(x, s, k - 1, limit);
      assert Joining(x, s, k) < (Joining(x, s, k - 1) + 1) * 0x40;
    }
  }

  /** v with k digits 0 behind it. */
  function Shl(v: nat, k: nat): nat {
    if k == 0 then v else 0x40 * Shl(v, k - 1)
  }

  lemma LeadLimit(b: Byte, n: nat)
    requires 1 <= n <= 6
    ensures LEADS[n] <= b ==> (Leads(b, n) <==> Shl(b - LEADS[n], n - 1) < LIMITS[n])
    ensures Leads(b, n) ==> Shl(b - LEADS[n] + 1, n - 1) <= LIMITS[n]
  {
    forall v: nat
      ensures Shl(v, 0) == v && Shl(v, 1) == 0x40 * v && Shl(v, 2) == 0x1000 * v && Shl(v, 3) == 0x4_0000 * v
      ensures Shl(v, 4) == 0x100_0000 * v && Shl(v, 5) == 0x4000_0000 * v
    {
    }
  }

  lemma {:induction false} AboveBound(v: nat, k: nat)
    ensures Shl(Above(v, k), k) <= v
  {
    if k > 0 {
      AboveBound(v / 0x40, k - 1);
    }
  }

  lemma FormRead(s: Bytes, v: nat, n: nat)
    requires IsForm(s, v, n)
    ensures Utf8ToInt(s) == (v, n)
  {
    hide Utf8ToInt, Joining, Tails, Leads, Above, Digits64, Shl;
    DecodeSteps(s, n);
    FormJoining(v, s, n - 1);
    AboveBound(v, n - 1);
    LeadLimit(s[0], n);
  }

  lemma ReadForm(s: Bytes, n: nat)
    requires s != [] && n > 0 && Utf8ToInt(s).1 == n
    ensures IsForm(s, Utf8ToInt(s).0, n)
  {
    hide Utf8ToInt, Joining, Tails, Above, Digits64, Shl;
    DecodeSteps(s, n);
    var x: nat := s[0] - LEADS[n];
    JoiningForm(x, s, n - 1);
    JoiningBound(x, s, n - 1, x + 1);
    LeadLimit(s[0], n);
  }

  /** The decoder reads v from n octets if and only if the text begins with v in n octets, shortest form or not. */
  lemma DecodeIff(s: Bytes, v: nat, n: nat)
    requires s != [] && n > 0
    ensures Utf8ToInt(s) == (v, n) <==> IsForm(s, v, n)
  {
    hide Utf8ToInt, IsForm;
    if Utf8ToInt(s) == (v, n) {
      ReadForm(s, n);
    }
    if IsForm(s, v, n) {
      FormRead(s, v, n);
    }
  }

  /** The encoder writes the shortest form. */
  lemma EncodeShortest(c: int)
    requires 0 <= c <= 0x7FFF_FFFF
    ensures var n := |IntToUtf8(c)|;
            IsForm(IntToUtf8(c), c, n) && (n > 1 ==> c >= LIMITS[n - 1])
  {
    hide Utf8ToInt, IsForm;
    DecodeEncode(c, []);
    assert IntToUtf8(c) + [] == IntToUtf8(c);
    DecodeIff(IntToUtf8(c), c, |IntToUtf8(c)|);
  }
}
