/**
 * The bit operations of uthash on unsigned values. The number of buckets is always a power of two,
 * so a mask with that number minus one keeps the low bits of a hash value.
 */
module HashBits {

  function Pow2(k: nat): (r: nat)
    ensures r >= 1
  {
    if k == 0 then 1 else 2 * Pow2(k - 1)
  }

  /** a & b */
  function BitAnd(a: nat, b: nat): nat {
    if a == 0 || b == 0 then 0
    else 2 * BitAnd(a / 2, b / 2) + if a % 2 == 1 && b % 2 == 1 then 1 else 0
  }

  /** a >> k */
  function ShiftRight(a: nat, k: nat): nat {
    if k == 0 then a else ShiftRight(a / 2, k - 1)
  }

  /** The number formed by the k lowest bits of a. */
  function Low(a: nat, k: nat): (r: nat)
    ensures r < Pow2(k)
  {
    if k == 0 then 0 else 2 * Low(a / 2, k - 1) + a % 2
  }

  lemma TwiceProduct(s: nat, p: nat)
    ensures s * (2 * p) == 2 * (s * p)
  {
  }

  /** Low is the remainder by 2^k: the quotient is the shift. */
  lemma {:induction false} LowIsRemainder(a: nat, k: nat)
    ensures a == ShiftRight(a, k) * Pow2(k) + Low(a, k)
  {
    if k > 0 {
      LowIsRemainder(a / 2, k - 1);
      TwiceProduct(ShiftRight(a, k), Pow2(k - 1));
    }
  }

  /** HASH_TO_BKT: the mask keeps the k lowest bits. */
  lemma {:induction false} MaskIsLow(a: nat, k: nat)
    ensures BitAnd(a, Pow2(k) - 1) == Low(a, k)
  {
    if a == 0 {
      LowZero(k);
    } else if k > 0 {
      MaskIsLow(a / 2, k - 1);
      var p := Pow2(k - 1);
      assert (2 * p - 1) / 2 == p - 1 && (2 * p - 1) % 2 == 1;
    }
  }

  lemma LowZero(k: nat)
    ensures Low(0, k) == 0
  {
  }

  /** One more bit: a value in slot i of 2^k buckets is in slot i or i + 2^k of 2^(k+1) buckets. */
  lemma {:induction false} SplitSlot(a: nat, k: nat)
    ensures Low(a, k + 1) == Low(a, k) || Low(a, k + 1) == Low(a, k) + Pow2(k)
  {
    if k > 0 {
      SplitSlot(a / 2, k - 1);
    } else {
      assert Low(a / 2, 0) == 0;
    }
  }

  /** r is n / d rounded up. */
  predicate IsCeil(r: nat, n: nat, d: nat) {
    n <= r * d < n + d
  }

  /** The shift-and-mask form of ceil(n / b) for b = 2^k (src/uthash.h:394-407). */
  function CeilShift(n: nat, k: nat): nat {
    ShiftRight(n, k) + if BitAnd(n, Pow2(k) - 1) != 0 then 1 else 0
  }

  lemma CeilCases(n: nat, s: nat, d: nat, l: nat)
    requires n == s * d + l && l < d
    ensures IsCeil(if l != 0 then s + 1 else s, n, d)
  {
    assert (s + 1) * d == s * d + d;
  }

  lemma CeilByBits(n: nat, k: nat)
    ensures IsCeil(CeilShift(n, k), n, Pow2(k))
    ensures n > 0 ==> CeilShift(n, k) > 0
  {
    hide ShiftRight, BitAnd, Low, Pow2, IsCeil;
    LowIsRemainder(n, k);
    MaskIsLow(n, k);
    CeilCases(n, ShiftRight(n, k), Pow2(k), Low(n, k));
  }
}
