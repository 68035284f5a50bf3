/**
 * The bucket side of uthash as a specification: chains of items, how items are spread over
 * buckets, and the sums HASH_FSCK and the expansion heuristic compute.
 */
module HashChains {
  import opened CStrings
  import opened Sequences

  /**
   * An element with its embedded UT_hash_handle. `elmt` and the offset `hho` have no counterpart:
   * the element and its handle are one object, and the key bytes do not change while it is stored.
   */
  class Item {
    const key: Bytes
    var hashv: nat
    var prev: Item?
    var next: Item?
    var hhPrev: Item?
    var hhNext: Item?

    constructor (key: Bytes)
      ensures this.key == key
    {
      this.key := key;
      hashv := 0;
      prev, next, hhPrev, hhNext := null, null, null, null;
    }
  }

  /** UT_hash_bucket */
  datatype Bucket = Bucket(head: Item?, count: nat, mult: nat)

  type Hash = Bytes -> nat

  /** Which bucket an item belongs to; see HashTable.SlotOf for the slots of a real table. */
  type Slots = Item -> nat

  function ItemAt(s: seq<Item>, i: int): Item? {
    if 0 <= i < |s| then s[i] else null
  }

  ghost function SetOf(s: seq<Item>): (r: set<Item>)
    ensures forall i | 0 <= i < |s| :: s[i] in r
  {
    set x | x in s
  }

  /** The bucket links of a chain: hhNext forwards to null, hhPrev exactly backwards. */
  ghost predicate ChainOk(c: seq<Item>, head: Item?)
    reads SetOf(c)`hhPrev, SetOf(c)`hhNext
  {
    head == ItemAt(c, 0)
    && (forall i {:trigger c[i].hhPrev} | 0 <= i < |c| :: c[i].hhPrev == ItemAt(c, i - 1))
    && (forall i {:trigger c[i].hhNext} | 0 <= i < |c| :: c[i].hhNext == ItemAt(c, i + 1))
  }

  /** The application-order links, the same way. */
  ghost predicate AppOk(s: seq<Item>, head: Item?)
    reads SetOf(s)`prev, SetOf(s)`next
  {
    head == ItemAt(s, 0)
    && (forall i {:trigger s[i].prev} | 0 <= i < |s| :: s[i].prev == ItemAt(s, i - 1))
    && (forall i {:trigger s[i].next} | 0 <= i < |s| :: s[i].next == ItemAt(s, i + 1))
  }

  /** The n chains hold exactly the given items, each once and in its own slot. */
  ghost predicate Spread(chains: seq<seq<Item>>, items: seq<Item>, slot: Slots, n: nat) {
    && |chains| == n
    && (forall b | 0 <= b < |chains| :: NoDup(chains[b]))
    && (forall b, x | 0 <= b < |chains| && x in chains[b] :: x in items && slot(x) == b)
    && (forall x | x in items :: slot(x) < n && x in chains[slot(x)])
  }

  ghost function Members(chains: seq<seq<Item>>): (r: set<Item>)
    ensures forall b | 0 <= b < |chains| :: SetOf(chains[b]) <= r
  {
    set b, x | 0 <= b < |chains| && x in chains[b] :: x
  }

  /** Every bucket's head and count describe its chain. */
  ghost predicate Linked(chains: seq<seq<Item>>, buckets: seq<Bucket>)
    reads Members(chains)`hhPrev, Members(chains)`hhNext
  {
    |buckets| == |chains|
    && forall b | 0 <= b < |chains| :: ChainOk(chains[b], buckets[b].head) && buckets[b].count == |chains[b]|
  }

  /** How far a chain of the given length exceeds d. */
  function Excess(len: nat, d: nat): nat {
    if len > d then len - d else 0
  }

  /** The excess over d, summed over all chains; for d == 0 this is the number of items in the chains. */
  function TotalExcess(chains: seq<seq<Item>>, d: nat): nat {
    if chains == [] then 0
    else TotalExcess(chains[..|chains| - 1], d) + Excess(|chains[|chains| - 1]|, d)
  }

  /** The places behind the first d of a chain. */
  ghost function Places(chains: seq<seq<Item>>, d: nat): set<(nat, nat)> {
    set b: nat, i: nat | b < |chains| && d <= i < |chains[b]| :: (b, i)
  }

  /** The sum counts the items behind the first d of their chains. */
  lemma {:induction false} TotalExcessCounts(chains: seq<seq<Item>>, d: nat)
    ensures TotalExcess(chains, d) == |Places(chains, d)|
  {
    if chains == [] {
      assert Places(chains, d) == {};
    } else {
      var k: nat := |chains| - 1;
      var before, last := Places(chains[..k], d), set i: nat | d <= i < |chains[k]| :: (k, i);
      TotalExcessCounts(chains[..k], d);
      RunCount(k, d, |chains[k]|);
      assert Places(chains, d) == before + last && before !! last;
    }
  }

  lemma {:induction false} RunCount(k: nat, d: nat, n: nat)
    ensures |set i: nat | d <= i < n :: (k, i)| == if n > d then n - d else 0
  {
    var run := set i: nat | d <= i < n :: (k, i);
    if n > d {
      RunCount(k, d, n - 1);
      assert run == (set i: nat | d <= i < n - 1 :: (k, i)) + {(k, n - 1)};
    } else {
      assert run == {};
    }
  }

  /** Replacing one chain changes the sum by the difference of the two excesses. */
  lemma {:induction false} TotalExcessUpdate(chains: seq<seq<Item>>, b: nat, c: seq<Item>, d: nat)
    requires b < |chains|
    ensures TotalExcess(chains[b := c], d) == TotalExcess(chains, d) - Excess(|chains[b]|, d) + Excess(|c|, d)
  {
    var n := |chains| - 1;
    if b == n {
      assert chains[b := c][..n] == chains[..n];
    } else {
      assert chains[b := c][..n] == chains[..n][b := c];
      TotalExcessUpdate(chains[..n], b, c, d);
    }
  }

  /** A fresh item put in front of its chain. */
  lemma AddSpread(chains: seq<seq<Item>>, items: seq<Item>, x: Item, slot: Slots, n: nat)
    requires Spread(chains, items, slot, n) && x !in items && slot(x) < n
    ensures var b := slot(x);
            Spread(chains[b := [x] + chains[b]], items + [x], slot, n)
  {
    assert x !in chains[slot(x)];
  }

  lemma RemoveAt(c: seq<Item>, j: nat)
    requires j < |c| && NoDup(c)
    ensures var d := c[..j] + c[j + 1..];
            NoDup(d) && c[j] !in d && forall y | y in c && y != c[j] :: y in d
  {
    var d := c[..j] + c[j + 1..];
    forall y | y in c && y != c[j] ensures y in d {
      var i :| 0 <= i < |c| && c[i] == y;
      assert if i < j then d[i] == y else d[i - 1] == y;
    }
  }

  /** An item taken out of its chain. */
  lemma RemoveSpread(chains: seq<seq<Item>>, items: seq<Item>, i: nat, j: nat, slot: Slots, n: nat)
    requires Spread(chains, items, slot, n) && NoDup(items)
    requires i < |items| && slot(items[i]) < n && j < |chains[slot(items[i])]|
    requires chains[slot(items[i])][j] == items[i]
    ensures var b := slot(items[i]);
            Spread(chains[b := chains[b][..j] + chains[b][j + 1..]], items[..i] + items[i + 1..], slot, n)
  {
    RemoveAt(chains[slot(items[i])], j);
    RemoveAt(items, i);
  }

  /** All chains one after the other. */
  function Flat(chains: seq<seq<Item>>): seq<Item> {
    if chains == [] then [] else Flat(chains[..|chains| - 1]) + chains[|chains| - 1]
  }

  lemma {:induction false} FlatLength(chains: seq<seq<Item>>)
    ensures |Flat(chains)| == TotalExcess(chains, 0)
  {
    if chains != [] {
      FlatLength(chains[..|chains| - 1]);
    }
  }

  lemma {:induction false} FlatMember(chains: seq<seq<Item>>, x: Item)
    ensures x in Flat(chains) <==> exists b :: 0 <= b < |chains| && x in chains[b]
  {
    if chains != [] {
      var n := |chains| - 1;
      FlatMember(chains[..n], x);
      if x in chains[n] {
      } else if x in Flat(chains) {
        var b :| 0 <= b < n && x in chains[..n][b];
        assert x in chains[b];
      } else {
        assert forall b | 0 <= b < n :: chains[..n][b] == chains[b];
      }
    }
  }

  /** The part of the walk of HASH_EXPAND_BUCKETS before position j of chain i. */
  function Walked(chains: seq<seq<Item>>, i: nat, j: nat): seq<Item>
    requires i < |chains| && j <= |chains[i]|
  {
    Flat(chains[..i]) + chains[i][..j]
  }

  /** An item of the table is still ahead of the walk exactly when it is not in the walked part. */
  lemma NotWalked(chains: seq<seq<Item>>, items: seq<Item>, slot: Slots, n: nat, i: nat, j: nat)
    requires Spread(chains, items, slot, n) && i < |chains| && j <= |chains[i]|
    ensures forall q | j <= q < |chains[i]| :: chains[i][q] !in Walked(chains, i, j)
    ensures forall r, x | i < r < |chains| && x in chains[r] :: x !in Walked(chains, i, j)
    ensures forall x | x in Walked(chains, i, j) :: x in items
  {
    forall x | x in Flat(chains[..i])
      ensures x in items && slot(x) < i
    {
      FlatMember(chains[..i], x);
      var b :| 0 <= b < i && x in chains[..i][b];
      assert x in chains[b];
    }
    forall x | x in chains[i][..j]
      ensures x in items && slot(x) == i
    {
      assert x in chains[i];
    }
  }

  lemma WalkedAll(chains: seq<seq<Item>>, i: nat)
    requires i < |chains|
    ensures Walked(chains, i, |chains[i]|) == Flat(chains[..i + 1])
  {
    assert chains[..i + 1][..i] == chains[..i];
    assert chains[i][..|chains[i]|] == chains[i];
  }

  /** The chain bucket b has after the items of xs have been put in front of their buckets one after the other. */
  function Pushed(xs: seq<Item>, slot: Slots, b: nat): seq<Item> {
    if xs == [] then []
    else
      var m := |xs| - 1;
      if slot(xs[m]) == b then [xs[m]] + Pushed(xs[..m], slot, b) else Pushed(xs[..m], slot, b)
  }

  /** All n chains of a table into which the items of xs have been put. */
  function AllPushed(xs: seq<Item>, slot: Slots, n: nat): (r: seq<seq<Item>>)
    ensures |r| == n
  {
    seq(n, b requires 0 <= b < n => Pushed(xs, slot, b))
  }

  lemma {:induction false} PushedMember(xs: seq<Item>, slot: Slots, b: nat, x: Item)
    ensures x in Pushed(xs, slot, b) <==> x in xs && slot(x) == b
  {
    if xs != [] {
      PushedMember(xs[..|xs| - 1], slot, b, x);
    }
  }

  /** In its chain an item stands in front of those that were put in before it. */
  lemma {:induction false} PushedLater(xs: seq<Item>, slot: Slots, b: nat, i: nat, j: nat) returns (k: nat, l: nat)
    requires i < j < |Pushed(xs, slot, b)|
    ensures l < k < |xs| && xs[k] == Pushed(xs, slot, b)[i] && xs[l] == Pushed(xs, slot, b)[j]
    decreases |xs|
  {
    var m := |xs| - 1;
    if slot(xs[m]) != b {
      k, l := PushedLater(xs[..m], slot, b, i, j);
    } else if i > 0 {
      k, l := PushedLater(xs[..m], slot, b, i - 1, j - 1);
    } else {
      var y := Pushed(xs[..m], slot, b)[j - 1];
      PushedMember(xs[..m], slot, b, y);
      k := m;
      l :| 0 <= l < m && xs[..m][l] == y;
    }
  }

  lemma {:induction false} PushedDistinct(xs: seq<Item>, slot: Slots, b: nat)
    requires NoDup(xs)
    ensures NoDup(Pushed(xs, slot, b))
  {
    if xs != [] {
      var m := |xs| - 1;
      PushedDistinct(xs[..m], slot, b);
      PushedMember(xs[..m], slot, b, xs[m]);
    }
  }

  /** One more item changes only the chain of its own bucket. */
  lemma PushOne(xs: seq<Item>, x: Item, slot: Slots, n: nat)
    requires slot(x) < n
    ensures var b := slot(x);
            AllPushed(xs + [x], slot, n) == AllPushed(xs, slot, n)[b := [x] + AllPushed(xs, slot, n)[b]]
  {
    assert (xs + [x])[..|xs|] == xs;
  }

  ghost predicate InSlots(nc: seq<seq<Item>>, slot: Slots) {
    forall b, y | 0 <= b < |nc| && y in nc[b] :: slot(y) == b
  }

  /** The chains built from xs hold items of xs only, each in its slot. */
  lemma PushedFacts(xs: seq<Item>, slot: Slots, n: nat)
    ensures InSlots(AllPushed(xs, slot, n), slot)
    ensures Members(AllPushed(xs, slot, n)) <= SetOf(xs)
    ensures forall x, b | x !in xs && 0 <= b < n :: x !in AllPushed(xs, slot, n)[b]
  {
    var all := AllPushed(xs, slot, n);
    forall b, x | 0 <= b < |all| && x in all[b]
      ensures x in xs && slot(x) == b
    {
      PushedMember(xs, slot, b, x);
    }
  }

  /** Chains of different slots have no item in common. */
  lemma SlotsApart(nc: seq<seq<Item>>, slot: Slots, x: Item)
    requires slot(x) < |nc| && InSlots(nc, slot)
    ensures forall b, y | 0 <= b < |nc| && b != slot(x) && y in nc[b] :: y !in nc[slot(x)] && y != x
  {
    forall b, y | 0 <= b < |nc| && b != slot(x) && y in nc[b]
      ensures y !in nc[slot(x)] && y != x
    {
      assert slot(y) == b;
    }
  }

  /** The walk over all chains meets every item once. */
  lemma {:induction false} FlatDistinct(chains: seq<seq<Item>>, items: seq<Item>, slot: Slots, n: nat, m: nat)
    requires Spread(chains, items, slot, n) && m <= |chains|
    ensures NoDup(Flat(chains[..m]))
  {
    if m > 0 {
      FlatDistinct(chains, items, slot, n, m - 1);
      assert chains[..m][..m - 1] == chains[..m - 1];
      NotWalked(chains, items, slot, n, m - 1, 0);
      assert Walked(chains, m - 1, 0) == Flat(chains[..m - 1]);
    }
  }

  /**
   * HASH_EXPAND_BUCKETS loses and duplicates nothing: the chains it builds in n2 buckets hold exactly
   * the items of the table, each once, in their new slots.
   */
  lemma ExpandSpread(chains: seq<seq<Item>>, items: seq<Item>, slot: Slots, n: nat, slot2: Slots, n2: nat)
    requires Spread(chains, items, slot, n) && forall x | x in items :: slot2(x) < n2
    ensures Spread(AllPushed(Flat(chains), slot2, n2), items, slot2, n2)
  {
    var xs := Flat(chains);
    assert chains[..|chains|] == chains;
    FlatDistinct(chains, items, slot, n, |chains|);
    forall x | x in xs
      ensures x in items
    {
      FlatMember(chains, x);
    }
    forall x | x in items
      ensures x in xs
    {
      FlatMember(chains, x);
      assert x in chains[slot(x)];
    }
    var all := AllPushed(xs, slot2, n2);
    forall b | 0 <= b < |all|
      ensures NoDup(all[b])
    {
      PushedDistinct(xs, slot2, b);
    }
    forall b, x | 0 <= b < |all| && x in all[b]
      ensures x in items && slot2(x) == b
    {
      PushedMember(xs, slot2, b, x);
    }
    forall x | x in items
      ensures x in all[slot2(x)]
    {
      PushedMember(xs, slot2, slot2(x), x);
    }
  }

  lemma {:induction false} EmptyExcess(n: nat, d: nat)
    ensures TotalExcess(seq(n, _ => []), d) == 0
  {
    if n > 0 {
      var s: seq<seq<Item>> := seq(n, _ => []);
      assert s[..n - 1] == seq(n - 1, _ => []);
      EmptyExcess(n - 1, d);
    }
  }

  lemma NothingPushed(slot: Slots, n: nat, d: nat)
    ensures AllPushed([], slot, n) == seq(n, _ => [])
    ensures TotalExcess(AllPushed([], slot, n), d) == 0
  {
    assert AllPushed([], slot, n) == seq(n, _ => []);
    EmptyExcess(n, d);
  }

  /** Putting items into buckets one by one keeps their number. */
  lemma {:induction false} PushedTotal(xs: seq<Item>, slot: Slots, n: nat)
    requires forall x | x in xs :: slot(x) < n
    ensures TotalExcess(AllPushed(xs, slot, n), 0) == |xs|
  {
    if xs == [] {
      NothingPushed(slot, n, 0);
    } else {
      var m := |xs| - 1;
      PushedTotal(xs[..m], slot, n);
      PushOne(xs[..m], xs[m], slot, n);
      assert xs == xs[..m] + [xs[m]];
      var b := slot(xs[m]);
      TotalExcessUpdate(AllPushed(xs[..m], slot, n), b, [xs[m]] + AllPushed(xs[..m], slot, n)[b], 0);
    }
  }
}
