/**
 * C strings as byte sequences. A `char *` is modelled by the bytes from the pointer
 * up to (not including) the terminating NUL, so advancing a pointer is dropping a
 * prefix and reading `*p` at the end of the string yields 0.
 */
module CStrings {

  type Byte = b: int | 0 <= b < 256
  type Bytes = seq<Byte>

  datatype Option<+T> = None | Some(value: T)

  /** p[i]; the terminator (and, for the model, everything behind it) reads as NUL. */
  function At(s: Bytes, i: nat): Byte {
    if i < |s| then s[i] else 0
  }

  /** tolower on ASCII letters, as used by strncasecmp. */
  function Lower(b: Byte): Byte {
    if 0x41 <= b <= 0x5A then b + 0x20 else b
  }

  /** strncasecmp(s, p, strlen(p)) == 0; strncmp(s, p, strlen(p)) == 0 is Dafny's `p <= s`. */
  predicate StartsWithNoCase(s: Bytes, p: Bytes) {
    |p| <= |s| && forall i | 0 <= i < |p| :: Lower(s[i]) == Lower(p[i])
  }

  /** strstr: the offset of the first occurrence of p in s. */
  function Find(s: Bytes, p: Bytes): (r: Option<nat>)
    ensures r.Some? ==> r.value + |p| <= |s| && p <= s[r.value..]
  {
    if p <= s then Some(0)
    else if s == [] then None
    else
      match Find(s[1..], p)
      case None => None
      case Some(k) => assert s[1..][k..] == s[1 + k..]; Some(1 + k)
  }

  /** The byte values strchr(WHITESPACE, b) accepts: newline, tab, carriage return, space. */
  predicate IsWhite(b: Byte) {
    b == 0x0A || b == 0x09 || b == 0x0D || b == 0x20
  }

  /** The suffix at which Parser_skipWhiteSpaces stops. */
  function SkipWhite(s: Bytes): (r: Bytes)
    ensures |r| <= |s|
    ensures r != [] ==> !IsWhite(r[0])
  {
    if s != [] && IsWhite(s[0]) then SkipWhite(s[1..]) else s
  }

  predicate AllWhite(s: Bytes) {
    forall i | 0 <= i < |s| :: IsWhite(s[i])
  }

  /** Skipping a run of white space stops exactly behind it. */
  lemma {:induction false} SkipWhiteRun(w: Bytes, s: Bytes)
    requires AllWhite(w)
    requires s != [] ==> !IsWhite(s[0])
    ensures SkipWhite(w + s) == s
  {
    if w == [] {
      assert w + s == s;
    } else {
      assert (w + s)[1..] == w[1..] + s;
      SkipWhiteRun(w[1..], s);
    }
  }

  /** SkipWhite is the suffix left by the longest leading run of white space. */
  lemma {:induction false} SkipWhiteIsSuffix(s: Bytes)
    ensures exists w :: AllWhite(w) && s == w + SkipWhite(s)
  {
    if s != [] && IsWhite(s[0]) {
      SkipWhiteIsSuffix(s[1..]);
      var w :| AllWhite(w) && s[1..] == w + SkipWhite(s[1..]);
      assert s == ([s[0]] + w) + SkipWhite(s);
    } else {
      assert s == [] + SkipWhite(s);
    }
  }

  /** The first occurrence of p in q + p + s is at |q| when no earlier offset matches. */
  lemma {:induction false} FindAt(q: Bytes, p: Bytes, s: Bytes)
    requires p != []
    requires forall i | 0 <= i < |q| :: !(p <= (q + p + s)[i..])
    ensures Find(q + p + s, p) == Some(|q|)
  {
    var all := q + p + s;
    if q == [] {
      assert all == p + s;
    } else {
      assert !(p <= all[0..]);
      assert all[0..] == all;
      var rest := q[1..] + p + s;
      assert all[1..] == rest;
      forall i | 0 <= i < |q[1..]| ensures !(p <= rest[i..]) {
        assert rest[i..] == all[i + 1..];
      }
      FindAt(q[1..], p, s);
    }
  }
}
