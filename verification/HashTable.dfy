/**
 * One uthash table (src/uthash.h:51-155, 338-451): the user's head variable, the table with its
 * bucket array, and the items linked both in bucket chains and in application order.
 */
module HashTable {
  import opened CStrings
  import opened Sequences
  import opened HashBits
  import opened HashChains

  const INITIAL_NUM_BUCKETS := 32
  const INITIAL_NUM_BUCKETS_LOG2 := 5
  const BKT_CAPACITY_THRESH := 10

  /** The number of `true` at the end of a history. */
  function TrailingTrue(h: seq<bool>): nat {
    if h != [] && h[|h| - 1] then 1 + TrailingTrue(h[..|h| - 1]) else 0
  }

  lemma LastTwo(h: seq<bool>)
    ensures TrailingTrue(h) > 1 <==> |h| > 1 && h[|h| - 1] && h[|h| - 2]
  {
    if h != [] {
      assert h[..|h| - 1] != [] ==> h[..|h| - 1][|h| - 2] == h[|h| - 2];
    }
  }

  function Quotient(a: nat, b: nat): nat
    requires b > 0
  {
    a / b
  }

  /** expand_mult as an expansion computes it: 0 for a bucket within the ideal length. */
  function ExpandMult(count: nat, ideal: nat): nat
    requires ideal > 0
  {
    if count > ideal then Quotient(count, ideal) else 0
  }

  /** A bucket over the ideal length gets the multiplier that its length exceeds by less than one ideal chain. */
  lemma ExpandMultMeaning(count: nat, ideal: nat)
    requires ideal > 0
    ensures var m := ExpandMult(count, ideal);
            if count > ideal then m > 0 && m * ideal <= count < (m + 1) * ideal else m == 0
  {
    if count > ideal {
      var q := count / ideal;
      assert count == ideal * q + count % ideal;
      assert (q + 1) * ideal == q * ideal + ideal;
    }
  }

  /** The map a sequence of items with distinct keys stands for. */
  function MapOf(items: seq<Item>): map<Bytes, Item> {
    if items == [] then map[]
    else MapOf(items[..|items| - 1])[items[|items| - 1].key := items[|items| - 1]]
  }

  ghost predicate DistinctKeys(items: seq<Item>) {
    forall i, j | 0 <= i < j < |items| :: items[i].key != items[j].key
  }

  /** MapOf maps exactly the keys of the items, each to its item. */
  lemma {:induction false} MapOfItems(items: seq<Item>)
    requires DistinctKeys(items)
    ensures forall i | 0 <= i < |items| :: items[i].key in MapOf(items) && MapOf(items)[items[i].key] == items[i]
    ensures forall k | k in MapOf(items) :: MapOf(items)[k] in items && MapOf(items)[k].key == k
  {
    if items != [] {
      MapOfItems(items[..|items| - 1]);
    }
  }

  /** The map does not depend on the order of the items. */
  lemma MapOfSameItems(s: seq<Item>, t: seq<Item>)
    requires DistinctKeys(s) && DistinctKeys(t)
    requires (forall x | x in s :: x in t) && (forall x | x in t :: x in s)
    ensures MapOf(s) == MapOf(t)
  {
    MapOfItems(s);
    MapOfItems(t);
    forall k
      ensures k in MapOf(s) <==> k in MapOf(t)
      ensures k in MapOf(s) ==> MapOf(s)[k] == MapOf(t)[k]
    {
      if k in MapOf(s) {
        var x := MapOf(s)[k];
        assert x in t && x.key == k;
      }
      if k in MapOf(t) {
        var x := MapOf(t)[k];
        assert x in s && x.key == k;
      }
    }
  }

  lemma RemovedKeys(items: seq<Item>, i: nat)
    requires DistinctKeys(items) && i < |items|
    ensures DistinctKeys(items[..i] + items[i + 1..])
    ensures forall x | x in items[..i] + items[i + 1..] :: x in items && x.key != items[i].key
    ensures forall x | x in items && x.key != items[i].key :: x in items[..i] + items[i + 1..]
  {
    RemoveAt(items, i);
  }

  lemma MapOfRemoved(items: seq<Item>, i: nat)
    requires DistinctKeys(items) && i < |items|
    ensures MapOf(items[..i] + items[i + 1..]) == MapOf(items) - {items[i].key}
  {
    hide MapOf;
    var t := items[..i] + items[i + 1..];
    RemovedKeys(items, i);
    MapOfItems(items);
    MapOfItems(t);
    forall k | k in MapOf(items) && k != items[i].key
      ensures k in MapOf(t)
    {
      var x := MapOf(items)[k];
      assert x in t && x.key == k;
    }
    forall k | k in MapOf(t)
      ensures k in MapOf(items) && k != items[i].key && MapOf(t)[k] == MapOf(items)[k]
    {
      var x := MapOf(t)[k];
      assert x in items && x.key == k;
    }
  }

  /** A bucket array with every head, count and multiplier cleared. */
  method NewBuckets(n: nat) returns (a: array<Bucket>)
    ensures fresh(a) && a.Length == n
    ensures forall b | 0 <= b < n :: a[b] == Bucket(null, 0, 0)
  {
    a := new Bucket[n](_ => Bucket(null, 0, 0));
  }

  /** The pointer part of putting x in front of bucket b; the count and multiplier are the caller's. */
  method PushFront(buckets: array<Bucket>, b: nat, x: Item, ghost c: seq<Item>)
    requires b < buckets.Length && ChainOk(c, buckets[b].head) && x !in c
    modifies buckets, SetOf(c)`hhPrev, x`hhPrev, x`hhNext
    ensures ChainOk([x] + c, buckets[b].head)
    ensures buckets[..] == old(buckets[..])[b := old(buckets[b]).(head := x)]
  {
    x.hhPrev := null;
    x.hhNext := buckets[b].head;
    if buckets[b].head != null {
      buckets[b].head.hhPrev := x;
    }
    buckets[b] := buckets[b].(head := x);
    ghost var d := [x] + c;
    forall i | 0 <= i < |d|
      ensures d[i].hhPrev == ItemAt(d, i - 1) && d[i].hhNext == ItemAt(d, i + 1)
    {
      if i > 0 {
        assert d[i] == c[i - 1] && old(c[i - 1].hhPrev) == ItemAt(c, i - 2);
      }
    }
  }

  /** The pointer part of HASH_DEL_IN_BKT. */
  method Unlink(buckets: array<Bucket>, b: nat, x: Item, ghost c: seq<Item>, ghost j: nat)
    requires b < buckets.Length && ChainOk(c, buckets[b].head) && NoDup(c)
    requires j < |c| && c[j] == x
    modifies buckets, SetOf(c)`hhPrev, SetOf(c)`hhNext
    ensures ChainOk(c[..j] + c[j + 1..], buckets[b].head)
    ensures buckets[..] == old(buckets[..])[b := old(buckets[b]).(head := buckets[b].head)]
  {
    if buckets[b].head == x {
      buckets[b] := buckets[b].(head := x.hhNext);
    }
    if x.hhPrev != null {
      x.hhPrev.hhNext := x.hhNext;
    }
    if x.hhNext != null {
      x.hhNext.hhPrev := x.hhPrev;
    }
    SkipOne(c, j, buckets[b].head);
  }

  /** A chain whose links step over position j is the chain without that position. */
  lemma SkipOne(c: seq<Item>, j: nat, head: Item?)
    requires j < |c| && head == ItemAt(c, if j == 0 then 1 else 0)
    requires forall i {:trigger c[i].hhPrev} | 0 <= i < |c| && i != j ::
               c[i].hhPrev == if i == j + 1 then ItemAt(c, j - 1) else ItemAt(c, i - 1)
    requires forall i {:trigger c[i].hhNext} | 0 <= i < |c| && i != j ::
               c[i].hhNext == if i == j - 1 then ItemAt(c, j + 1) else ItemAt(c, i + 1)
    ensures ChainOk(c[..j] + c[j + 1..], head)
  {
    var d := c[..j] + c[j + 1..];
    forall i | 0 <= i < |d|
      ensures d[i].hhPrev == ItemAt(d, i - 1) && d[i].hhNext == ItemAt(d, i + 1)
    {
      assert d[i] == if i < j then c[i] else c[i + 1];
    }
  }

  /** Every item carries the hash value of its key. */
  ghost predicate HashesOk(items: seq<Item>, hash: Hash)
    reads SetOf(items)`hashv
  {
    forall x | x in items :: x in SetOf(items) && x.hashv == hash(x.key)
  }

  /** HASH_TO_BKT on the hash values of the items, for 2^k buckets. */
  function SlotOf(hash: Hash, k: nat): Slots {
    (x: Item) => Low(hash(x.key), k)
  }

  lemma DoublePow2(k: nat)
    ensures Pow2(k + 1) == 2 * Pow2(k)
  {
  }

  lemma SlotInRange(x: Item, hash: Hash, k: nat)
    ensures SlotOf(hash, k)(x) == Low(hash(x.key), k) < Pow2(k)
  {
  }

  /** In an expansion an item of bucket i goes to exactly one of the new buckets i and i + 2^k, and no other. */
  lemma ExpandSplits(before: seq<seq<Item>>, after: seq<seq<Item>>, items: seq<Item>, hash: Hash, k: nat, i: nat, x: Item)
    requires Spread(before, items, SlotOf(hash, k), Pow2(k))
    requires Spread(after, items, SlotOf(hash, k + 1), Pow2(k + 1))
    requires i < Pow2(k) && x in before[i]
    ensures i + Pow2(k) < |after|
    ensures x in after[i] <==> x !in after[i + Pow2(k)]
    ensures forall b | 0 <= b < |after| && x in after[b] :: b == i || b == i + Pow2(k)
  {
    hide Low, Pow2;
    DoublePow2(k);
    SplitSlot(hash(x.key), k);
    SlotInRange(x, hash, k);
    SlotInRange(x, hash, k + 1);
    assert x in items && x in after[SlotOf(hash, k + 1)(x)];
  }

  /** UT_hash_table */
  class Table {
    const hash: Hash
    var buckets: array<Bucket>
    var numBuckets: nat
    var log2NumBuckets: nat
    var numItems: nat
    var tail: Item
    var idealChainMaxlen: nat
    var nonidealItems: nat
    var ineffExpands: nat
    var noexpand: bool
    var hhDel: Item?
    ghost var chains: seq<seq<Item>>
    ghost var history: seq<bool>  // for every expansion so far, whether it was ineffective

    /** The bucket half of HASH_FSCK, for the items of the table. */
    ghost predicate BucketsOk(items: seq<Item>)
      reads this, buckets, Members(chains)`hhPrev, Members(chains)`hhNext
    {
      ChainsOk(items) && numItems == |items|
    }

    /** The same without numItems, which HASH_ADD and HASH_DELETE change at another moment. */
    ghost predicate ChainsOk(items: seq<Item>)
      reads `chains, `numBuckets, `log2NumBuckets, `ineffExpands, `noexpand, `history, `buckets, buckets
      reads Members(chains)`hhPrev, Members(chains)`hhNext
    {
      && numBuckets == Pow2(log2NumBuckets)
      && Spread(chains, items, SlotOf(hash, log2NumBuckets), numBuckets)
      && Linked(chains, buckets[..])
      && TotalExcess(chains, 0) == |items|
      && HistoryOk()
    }

    lemma ChainsParts(items: seq<Item>)
      requires ChainsOk(items)
      ensures numBuckets == Pow2(log2NumBuckets) && Linked(chains, buckets[..]) && HistoryOk()
      ensures Spread(chains, items, SlotOf(hash, log2NumBuckets), numBuckets) && TotalExcess(chains, 0) == |items|
    {
    }

    lemma MakeChains(items: seq<Item>)
      requires numBuckets == Pow2(log2NumBuckets) && Linked(chains, buckets[..]) && HistoryOk()
      requires Spread(chains, items, SlotOf(hash, log2NumBuckets), numBuckets) && TotalExcess(chains, 0) == |items|
      ensures ChainsOk(items)
    {
    }

    lemma MembersOf(items: seq<Item>)
      requires ChainsOk(items)
      ensures Members(chains) <= SetOf(items)
    {
      hide Linked, TotalExcess, SlotOf, NoDup, Pow2;
    }

    /** Expansion is inhibited exactly when the last two expansions were ineffective. */
    ghost predicate HistoryOk()
      reads `ineffExpands, `noexpand, `history
    {
      && ineffExpands == TrailingTrue(history)
      && (noexpand <==> ineffExpands > 1)
      && ineffExpands <= 2
    }

    constructor (hash: Hash, first: Item)
      ensures this.hash == hash && fresh(buckets)
      ensures tail == first && BucketsOk([]) && numBuckets == 32 && log2NumBuckets == 5 && !noexpand
    {
      var a := NewBuckets(INITIAL_NUM_BUCKETS);
      this.hash := hash;
      buckets := a;
      numBuckets, log2NumBuckets := INITIAL_NUM_BUCKETS, INITIAL_NUM_BUCKETS_LOG2;
      numItems, tail, hhDel := 0, first, null;
      idealChainMaxlen, nonidealItems, ineffExpands, noexpand := 0, 0, 0, false;
      chains := seq(INITIAL_NUM_BUCKETS, _ => []);
      history := [];
      new;
      assert Pow2(5) == 32;
      EmptyExcess(32, 0);
    }

    /**
     * HASH_EXPAND_BUCKETS. The chains become those of the doubled table, and the statistics are the
     * ones their comments promise (src/uthash.h:535-577).
     */
    method ExpandBuckets(ghost items: seq<Item>)
      requires BucketsOk(items) && items != [] && !noexpand
      requires HashesOk(items, hash)
      modifies this, SetOf(items)`hhPrev, SetOf(items)`hhNext
      ensures BucketsOk(items) && fresh(buckets)
      ensures log2NumBuckets == old(log2NumBuckets) + 1
      ensures chains == AllPushed(Flat(old(chains)), SlotOf(hash, log2NumBuckets), numBuckets)
      ensures numItems == old(numItems) && tail == old(tail)
      ensures IsCeil(idealChainMaxlen, numItems, numBuckets) && idealChainMaxlen > 0
      ensures nonidealItems == TotalExcess(chains, idealChainMaxlen)
      ensures forall b | 0 <= b < |chains| :: buckets[b].mult == ExpandMult(|chains[b]|, idealChainMaxlen)
      ensures history == old(history) + [nonidealItems > numItems / 2]
      ensures noexpand <==> |history| > 1 && history[|history| - 1] && history[|history| - 2]
    {
      hide TotalExcess, Low, Pow2, IsCeil, Spread, SlotOf, Flat, AllPushed, ChainsOk, Linked, Rebuilt, HistoryOk;
      ChainsParts(items);
      ghost var slot, slot2 := SlotOf(hash, log2NumBuckets), SlotOf(hash, log2NumBuckets + 1);
      ghost var n := numBuckets;
      DoublePow2(log2NumBuckets);
      NewSlots(items, slot2, n);
      ExpandedChains(items, slot, slot2);
      RebuildBuckets(items, slot, slot2);
      RebuiltParts(chains, buckets[..]);
      numBuckets := numBuckets * 2;
      log2NumBuckets := log2NumBuckets + 1;
      JudgeExpansion();
      MakeChains(items);
    }

    /** The end of HASH_EXPAND_BUCKETS: two ineffective expansions in a row inhibit further ones. */
    method JudgeExpansion()
      requires HistoryOk() && !noexpand && Linked(chains, buckets[..])
      modifies `ineffExpands, `noexpand, `history
      ensures HistoryOk() && history == old(history) + [nonidealItems > numItems / 2] && Linked(chains, buckets[..])
      ensures noexpand <==> |history| > 1 && history[|history| - 1] && history[|history| - 2]
    {
      hide Linked;
      LastTwo(history + [nonidealItems > numItems / 2]);
      history := history + [nonidealItems > numItems / 2];
      assert history[..|history| - 1] == old(history);
      HalfShift(numItems);
      ineffExpands := if nonidealItems > ShiftRight(numItems, 1) then ineffExpands + 1 else 0;
      if ineffExpands > 1 {
        noexpand := true;
      }
    }

    lemma RebuiltParts(nc: seq<seq<Item>>, bs: seq<Bucket>)
      requires Rebuilt(nc, bs)
      ensures Linked(nc, bs) && idealChainMaxlen > 0 && nonidealItems == TotalExcess(nc, idealChainMaxlen)
      ensures |nc| == |bs| && forall b | 0 <= b < |nc| :: bs[b].mult == ExpandMult(|nc[b]|, idealChainMaxlen)
    {
    }

    lemma NewSlots(items: seq<Item>, slot2: Slots, n: nat)
      requires Pow2(log2NumBuckets + 1) == 2 * n && slot2 == SlotOf(hash, log2NumBuckets + 1)
      requires HashesOk(items, hash)
      ensures forall x | x in items :: slot2(x) == Low(x.hashv, log2NumBuckets + 1) < 2 * n
    {
      forall x | x in items
        ensures slot2(x) == Low(x.hashv, log2NumBuckets + 1) < 2 * n
      {
        SlotInRange(x, hash, log2NumBuckets + 1);
      }
    }

    /** What is known of the chains an expansion builds. */
    lemma ExpandedChains(items: seq<Item>, slot: Slots, slot2: Slots)
      requires Spread(chains, items, slot, numBuckets) && TotalExcess(chains, 0) == |items|
      requires forall x | x in items :: slot2(x) < 2 * numBuckets
      ensures Spread(AllPushed(Flat(chains), slot2, 2 * numBuckets), items, slot2, 2 * numBuckets)
      ensures TotalExcess(AllPushed(Flat(chains), slot2, 2 * numBuckets), 0) == |items|
    {
      hide TotalExcess, Flat, AllPushed, Spread;
      ExpandSpread(chains, items, slot, numBuckets, slot2, 2 * numBuckets);
      FlatLength(chains);
      FlatItems(chains, items, slot, numBuckets);
      PushedTotal(Flat(chains), slot2, 2 * numBuckets);
    }

    /** The loops of HASH_EXPAND_BUCKETS: a new bucket array is filled and replaces the old one. */
    method RebuildBuckets(ghost items: seq<Item>, ghost slot: Slots, ghost slot2: Slots)
      requires numBuckets == Pow2(log2NumBuckets) && Spread(chains, items, slot, numBuckets)
      requires Linked(chains, buckets[..]) && numItems > 0
      requires forall x | x in items :: slot2(x) == Low(x.hashv, log2NumBuckets + 1) < 2 * numBuckets
      modifies this`idealChainMaxlen, this`nonidealItems, this`buckets, this`chains
      modifies SetOf(items)`hhPrev, SetOf(items)`hhNext
      ensures fresh(buckets) && chains == AllPushed(Flat(old(chains)), slot2, 2 * numBuckets)
      ensures Rebuilt(chains, buckets[..])
      ensures IsCeil(idealChainMaxlen, numItems, 2 * numBuckets)
    {
      hide TotalExcess, Low, Pow2, IsCeil, ChainOk, Spread, AllPushed, Rebuilt, Flat, Linked;
      var newBuckets := FilledBuckets(items, slot, slot2);
      buckets := newBuckets;
      chains := AllPushed(Flat(chains), slot2, 2 * numBuckets);
    }

    /** The new bucket array, with the items in it. */
    method FilledBuckets(ghost items: seq<Item>, ghost slot: Slots, ghost slot2: Slots) returns (newBuckets: array<Bucket>)
      requires numBuckets == Pow2(log2NumBuckets) && Spread(chains, items, slot, numBuckets)
      requires Linked(chains, buckets[..]) && numItems > 0
      requires forall x | x in items :: slot2(x) == Low(x.hashv, log2NumBuckets + 1) < 2 * numBuckets
      modifies this`idealChainMaxlen, this`nonidealItems, SetOf(items)`hhPrev, SetOf(items)`hhNext
      ensures fresh(newBuckets) && Rebuilt(AllPushed(Flat(chains), slot2, 2 * numBuckets), newBuckets[..])
      ensures IsCeil(idealChainMaxlen, numItems, 2 * numBuckets)
    {
      hide TotalExcess, BitAnd, Low, Pow2, CeilShift, IsCeil, ChainOk, Spread, AllPushed;
      SpreadLength(chains, items, slot, numBuckets);
      newBuckets := NewBuckets(2 * numBuckets);
      idealChainMaxlen := CeilShift(numItems, log2NumBuckets + 1);
      CeilByBits(numItems, log2NumBuckets + 1);
      DoublePow2(log2NumBuckets);
      nonidealItems := 0;
      NothingPushed(slot2, 2 * numBuckets, idealChainMaxlen);
      EmptyChain();
      forall r | 0 <= r < |chains|
        ensures ChainOk(chains[r], buckets[r].head)
      {
        assert forall x | x in SetOf(chains[r]) :: old(allocated(x));
        assert old(ChainOk(chains[r], buckets[..][r].head));
      }
      FillBuckets(newBuckets, items, slot, slot2);
    }

    /** The outer loop: every old chain in turn. */
    method FillBuckets(newBuckets: array<Bucket>, ghost items: seq<Item>, ghost slot: Slots, ghost slot2: Slots)
      requires numBuckets == Pow2(log2NumBuckets) && Spread(chains, items, slot, numBuckets)
      requires forall x | x in items :: slot2(x) == Low(x.hashv, log2NumBuckets + 1) < 2 * numBuckets
      requires |chains| == buckets.Length == numBuckets && buckets != newBuckets
      requires Rebuilt(AllPushed([], slot2, 2 * numBuckets), newBuckets[..])
      requires forall r | 0 <= r < |chains| :: ChainOk(chains[r], buckets[r].head)
      modifies this`nonidealItems, newBuckets, SetOf(items)`hhPrev, SetOf(items)`hhNext
      ensures Rebuilt(AllPushed(Flat(chains), slot2, 2 * numBuckets), newBuckets[..])
    {
      hide TotalExcess, Low, Pow2, ChainOk, Spread, AllPushed, Rebuilt;
      assert chains[..0] == [];
      var bktI := 0;
      while bktI < numBuckets
        invariant 0 <= bktI <= numBuckets
        invariant Rebuilt(AllPushed(Flat(chains[..bktI]), slot2, 2 * numBuckets), newBuckets[..])
        invariant forall r | bktI <= r < |chains| :: ChainOk(chains[r], buckets[r].head)
      {
        MoveChain(newBuckets, items, bktI, slot, slot2);
        bktI := bktI + 1;
      }
      assert chains[..|chains|] == chains;
    }

    /** The inner loop: the items of one old chain move to the new buckets. */
    method MoveChain(newBuckets: array<Bucket>, ghost items: seq<Item>, bktI: nat, ghost slot: Slots, ghost slot2: Slots)
      requires numBuckets == Pow2(log2NumBuckets) && Spread(chains, items, slot, numBuckets)
      requires forall x | x in items :: slot2(x) == Low(x.hashv, log2NumBuckets + 1) < 2 * numBuckets
      requires bktI < |chains| == buckets.Length && buckets != newBuckets
      requires Rebuilt(AllPushed(Flat(chains[..bktI]), slot2, 2 * numBuckets), newBuckets[..])
      requires forall r | bktI <= r < |chains| :: ChainOk(chains[r], buckets[r].head)
      modifies this`nonidealItems, newBuckets, SetOf(items)`hhPrev, SetOf(items)`hhNext
      ensures Rebuilt(AllPushed(Flat(chains[..bktI + 1]), slot2, 2 * numBuckets), newBuckets[..])
      ensures forall r | bktI < r < |chains| :: ChainOk(chains[r], buckets[r].head)
    {
      hide TotalExcess, BitAnd, Low, Pow2, AllPushed, Rebuilt, Flat, Spread, ChainOk;
      ghost var c, n2 := chains[bktI], 2 * numBuckets;
      var thh := buckets[bktI].head;
      ghost var j := 0;
      ChainNext(c, thh);
      assert Walked(chains, bktI, 0) == Flat(chains[..bktI]);
      while thh != null
        invariant 0 <= j <= |c| && thh == ItemAt(c, j)
        invariant forall q {:trigger c[q].hhNext} | j <= q < |c| :: c[q].hhNext == ItemAt(c, q + 1)
        invariant Rebuilt(AllPushed(Walked(chains, bktI, j), slot2, n2), newBuckets[..])
        invariant forall r | bktI < r < |chains| :: ChainOk(chains[r], buckets[r].head)
        decreases |c| - j
      {
        var hhNxt := thh.hhNext;
        ghost var w := Walked(chains, bktI, j);
        NotWalked(chains, items, slot, numBuckets, bktI, j);
        Ahead(chains, items, slot, numBuckets, bktI, j);
        PushedFacts(w, slot2, n2);
        PushOne(w, thh, slot2, n2);
        PushStep(newBuckets, thh, AllPushed(w, slot2, n2), slot2);
        forall r | bktI < r < |chains|
          ensures ChainOk(chains[r], buckets[r].head)
        {
          assert SetOf(chains[r]) !! SetOf(w) + {thh};
        }
        WalkedStep(chains, bktI, j);
        thh, j := hhNxt, j + 1;
      }
      WalkedAll(chains, bktI);
    }

    /** One item moves to its new bucket. */
    method PushStep(newBuckets: array<Bucket>, thh: Item, ghost nc: seq<seq<Item>>, ghost slot2: Slots)
      requires numBuckets == Pow2(log2NumBuckets)
      requires |nc| == 2 * numBuckets && slot2(thh) == Low(thh.hashv, log2NumBuckets + 1) < 2 * numBuckets
      requires InSlots(nc, slot2) && thh !in nc[slot2(thh)]
      requires Rebuilt(nc, newBuckets[..])
      modifies this`nonidealItems, newBuckets, thh`hhPrev, thh`hhNext, Members(nc)`hhPrev
      ensures Rebuilt(nc[slot2(thh) := [thh] + nc[slot2(thh)]], newBuckets[..])
    {
      hide TotalExcess, BitAnd, Low, Pow2, ChainOk, Quotient;
      MaskIsLow(thh.hashv, log2NumBuckets + 1);
      DoublePow2(log2NumBuckets);
      var bkt := BitAnd(thh.hashv, numBuckets * 2 - 1);
      ghost var c := nc[bkt];
      ghost var oldBuckets := newBuckets[..];
      TotalExcessUpdate(nc, bkt, [thh] + c, idealChainMaxlen);
      newBuckets[bkt] := newBuckets[bkt].(count := newBuckets[bkt].count + 1);
      if newBuckets[bkt].count > idealChainMaxlen {
        nonidealItems := nonidealItems + 1;
        newBuckets[bkt] := newBuckets[bkt].(mult := Quotient(newBuckets[bkt].count, idealChainMaxlen));
      }
      SlotsApart(nc, slot2, thh);
      PushFront(newBuckets, bkt, thh, c);
      forall b | 0 <= b < |nc| && b != bkt
        ensures ChainOk(nc[b], newBuckets[b].head)
      {
        assert SetOf(nc[b]) !! SetOf(c) + {thh};
        assert newBuckets[b] == oldBuckets[b];
      }
    }

    /** HASH_ADD_TO_BKT: the new item goes in front of its bucket, which may set off an expansion. */
    method AddToBkt(add: Item, ghost items: seq<Item>)
      requires ChainsOk(items) && numItems == |items| + 1 && add !in items
      requires HashesOk(items + [add], hash)
      modifies this, buckets, SetOf(items + [add])`hhPrev, SetOf(items + [add])`hhNext
      ensures BucketsOk(items + [add]) && tail == old(tail)
      ensures buckets == old(buckets) || fresh(buckets)
      ensures var b := Low(add.hashv, old(log2NumBuckets));
              var full := old(|chains[b]| + 1 >= (buckets[b].mult + 1) * 10);
              log2NumBuckets == old(log2NumBuckets) + if full && !old(noexpand) then 1 else 0
      ensures var b := Low(add.hashv, old(log2NumBuckets));
              var linked := old(chains)[b := [add] + old(chains[b])];
              chains == if log2NumBuckets == old(log2NumBuckets) then linked
                        else AllPushed(Flat(linked), SlotOf(hash, log2NumBuckets), numBuckets)
    {
      hide TotalExcess, BitAnd, Low, Pow2, ChainOk, SlotOf, Flat, AllPushed;
      MaskIsLow(add.hashv, log2NumBuckets);
      SlotInRange(add, hash, log2NumBuckets);
      var bkt := BitAnd(add.hashv, numBuckets - 1);
      LinkIn(add, bkt, items);
      if buckets[bkt].count >= (buckets[bkt].mult + 1) * BKT_CAPACITY_THRESH && !noexpand {
        ExpandBuckets(items + [add]);
      }
    }

    method LinkIn(add: Item, bkt: nat, ghost items: seq<Item>)
      requires ChainsOk(items) && add !in items
      requires SlotOf(hash, log2NumBuckets)(add) == bkt < numBuckets
      modifies this`chains, buckets, SetOf(items + [add])`hhPrev, SetOf(items + [add])`hhNext
      ensures ChainsOk(items + [add])
      ensures chains == old(chains)[bkt := [add] + old(chains[bkt])]
      ensures buckets[bkt].mult == old(buckets[bkt].mult)
    {
      hide TotalExcess, Low, Pow2, ChainOk, SlotOf;
      ghost var slot := SlotOf(hash, log2NumBuckets);
      ghost var c, oldBuckets := chains[bkt], buckets[..];
      AddSpread(chains, items, add, slot, numBuckets);
      TotalExcessUpdate(chains, bkt, [add] + c, 0);
      SlotsApart(chains, slot, add);
      buckets[bkt] := buckets[bkt].(count := buckets[bkt].count + 1);
      PushFront(buckets, bkt, add, c);
      forall b | 0 <= b < |chains| && b != bkt
        ensures ChainOk(chains[b], buckets[b].head)
      {
        assert SetOf(chains[b]) !! SetOf(c) + {add};
        assert buckets[b] == oldBuckets[b];
      }
      chains := chains[bkt := [add] + c];
    }

    /** HASH_DEL_IN_BKT on the bucket of an item of the table. */
    method DelInBkt(ghost items: seq<Item>, ghost i: nat, x: Item)
      requires ChainsOk(items) && NoDup(items) && i < |items| && items[i] == x
      requires x.hashv == hash(x.key)
      modifies this`chains, buckets, SetOf(items)`hhPrev, SetOf(items)`hhNext
      ensures ChainsOk(items[..i] + items[i + 1..])
    {
      hide TotalExcess, BitAnd, Low, Pow2, ChainOk, SlotOf;
      ghost var slot := SlotOf(hash, log2NumBuckets);
      MaskIsLow(x.hashv, log2NumBuckets);
      SlotInRange(x, hash, log2NumBuckets);
      var bkt := BitAnd(x.hashv, numBuckets - 1);
      ghost var c, oldBuckets := chains[bkt], buckets[..];
      ghost var j :| 0 <= j < |c| && c[j] == x;
      RemoveSpread(chains, items, i, j, slot, numBuckets);
      TotalExcessUpdate(chains, bkt, c[..j] + c[j + 1..], 0);
      SlotsApart(chains, slot, x);
      buckets[bkt] := buckets[bkt].(count := buckets[bkt].count - 1);
      Unlink(buckets, bkt, x, c, j);
      forall b | 0 <= b < |chains| && b != bkt
        ensures ChainOk(chains[b], buckets[b].head)
      {
        assert SetOf(chains[b]) !! SetOf(c);
        assert buckets[b] == oldBuckets[b];
      }
      chains := chains[bkt := c[..j] + c[j + 1..]];
    }

    /** HASH_FIND_IN_BKT on the bucket of the key. */
    method FindInBkt(key: Bytes, ghost items: seq<Item>) returns (out: Item?)
      requires ChainsOk(items)
      ensures out == null ==> forall x | x in items :: x.key != key
      ensures out != null ==> out in items && out.key == key
    {
      hide TotalExcess, BitAnd, Low, Pow2;
      MaskIsLow(hash(key), log2NumBuckets);
      var bkt := BitAnd(hash(key), numBuckets - 1);
      ghost var c := chains[bkt];
      out := buckets[bkt].head;
      ghost var j := 0;
      while out != null
        invariant 0 <= j <= |c| && out == ItemAt(c, j)
        invariant forall q | 0 <= q < j :: c[q].key != key
        decreases |c| - j
      {
        if out.key == key {
          return;
        }
        out := out.hhNext;
        j := j + 1;
      }
      forall x | x in items
        ensures x.key != key
      {
        assert x in chains[Low(hash(x.key), log2NumBuckets)];
      }
    }

    /** The new buckets hold the chains nc, and the statistics are theirs. */
    ghost predicate Rebuilt(nc: seq<seq<Item>>, bs: seq<Bucket>)
      reads `idealChainMaxlen, `nonidealItems, Members(nc)`hhPrev, Members(nc)`hhNext
    {
      && idealChainMaxlen > 0
      && Linked(nc, bs)
      && (forall b | 0 <= b < |bs| :: bs[b].mult == ExpandMult(bs[b].count, idealChainMaxlen))
      && nonidealItems == TotalExcess(nc, idealChainMaxlen)
    }
  }

  lemma WalkedStep(chains: seq<seq<Item>>, i: nat, j: nat)
    requires i < |chains| && j < |chains[i]|
    ensures Walked(chains, i, j + 1) == Walked(chains, i, j) + [chains[i][j]]
  {
    assert chains[i][..j + 1] == chains[i][..j] + [chains[i][j]];
  }

  lemma HalfShift(n: nat)
    ensures ShiftRight(n, 1) == n / 2
  {
    assert ShiftRight(n / 2, 0) == n / 2;
  }

  lemma EmptyChain()
    ensures ChainOk([], null)
  {
  }

  lemma SpreadLength(chains: seq<seq<Item>>, items: seq<Item>, slot: Slots, n: nat)
    requires Spread(chains, items, slot, n)
    ensures |chains| == n
  {
  }

  lemma FlatItems(chains: seq<seq<Item>>, items: seq<Item>, slot: Slots, n: nat)
    requires Spread(chains, items, slot, n)
    ensures forall x | x in Flat(chains) :: x in items
  {
    forall x | x in Flat(chains)
      ensures x in items
    {
      FlatMember(chains, x);
    }
  }

  lemma ChainNext(c: seq<Item>, head: Item?)
    requires ChainOk(c, head)
    ensures head == ItemAt(c, 0)
    ensures forall q {:trigger c[q].hhNext} | 0 <= q < |c| :: c[q].hhNext == ItemAt(c, q + 1)
  {
  }

  /** The items ahead of the walk are items of the table and distinct from each other. */
  lemma Ahead(chains: seq<seq<Item>>, items: seq<Item>, slot: Slots, n: nat, i: nat, j: nat)
    requires Spread(chains, items, slot, n) && i < |chains| && j < |chains[i]|
    ensures chains[i][j] in items
    ensures forall q | j < q < |chains[i]| :: chains[i][q] != chains[i][j]
    ensures forall r, x | i < r < |chains| && x in chains[r] :: x != chains[i][j]
  {
    assert chains[i][j] in chains[i];
  }

  /** The table t holds the items, in this application order starting at head. */
  ghost predicate Stored(t: Table, head: Item?, items: seq<Item>)
    reads t, t.buckets, items
  {
    && items != [] && t.tail == items[|items| - 1]
    && HashesOk(items, t.hash)
    && DistinctKeys(items)
    && AppOk(items, head)
    && Members(t.chains) <= SetOf(items)
    && t.BucketsOk(items)
  }

  lemma StoredParts(t: Table, head: Item?, items: seq<Item>)
    requires Stored(t, head, items)
    ensures items != [] && t.tail == items[|items| - 1] && t.numItems == |items|
    ensures HashesOk(items, t.hash) && DistinctKeys(items) && AppOk(items, head) && t.ChainsOk(items)
    ensures Members(t.chains) <= SetOf(items)
  {
  }

  lemma MakeStored(t: Table, head: Item?, items: seq<Item>)
    requires items != [] && t.tail == items[|items| - 1] && t.numItems == |items|
    requires HashesOk(items, t.hash) && DistinctKeys(items) && AppOk(items, head) && t.ChainsOk(items)
    ensures Stored(t, head, items)
  {
    t.MembersOf(items);
  }

  /**
   * What the macro argument `delptr` may be: the head variable itself, as in
   * HASH_DELETE(hh, users, users), or another expression. The macro evaluates it anew at every use.
   */
  datatype Operand = HeadVariable | Pointer(p: Item)

  /** The user's head variable and the table its element leads to. */
  class HashHead {
    const hash: Hash
    var head: Item?
    var tbl: Table?
    ghost var items: seq<Item>  // in application order

    /** HASH_FSCK, and what it leaves implicit; an empty table is freed. */
    ghost predicate Valid()
      reads this, items, tbl, if tbl == null then {} else {tbl.buckets}
    {
      if items == [] then head == null && tbl == null
      else tbl != null && tbl.hash == hash && Stored(tbl, head, items)
    }

    ghost function Contents(): map<Bytes, Item>
      reads this
    {
      MapOf(items)
    }

    constructor (hash: Hash)
      ensures Valid() && items == [] && this.hash == hash
    {
      this.hash := hash;
      head, tbl, items := null, null, [];
    }

    /** HASH_FIND: exactly the item stored under the key, or null. */
    method Find(key: Bytes) returns (out: Item?)
      requires Valid()
      ensures out == if key in Contents() then Contents()[key] else null
    {
      hide MapOf;
      MapOfItems(items);
      out := head;
      if head != null {
        out := tbl.FindInBkt(key, items);
      }
    }

    /** The value of a macro argument in the current state. */
    function Eval(op: Operand): Item?
      reads this
    {
      match op
      case HeadVariable => head
      case Pointer(p) => p
    }

    /** HASH_ADD_KEYPTR for a key that is not in the table: the item goes last and under its key. */
    method Add(add: Item)
      requires Valid() && add.key !in Contents()
      modifies this, add, tbl, if tbl == null then {} else {tbl.buckets}
      modifies SetOf(items)`next, SetOf(items)`hhPrev, SetOf(items)`hhNext
      ensures Valid() && items == old(items) + [add]
      ensures Contents() == old(Contents())[add.key := add]
      ensures tbl == old(tbl) || (old(tbl) == null && fresh(tbl))
    {
      hide MapOf, Stored;
      if items != [] {
        StoredParts(tbl, head, items);
        HeadOfList(items, head);
        MapOfItems(items);
      }
      MapOfAdded(items, add);
      add.next := null;
      if head == null {
        AddFirst(add);
      } else {
        AddLast(add);
      }
    }

    /** The branch that creates the table. */
    method AddFirst(add: Item)
      requires items == [] && add.next == null
      modifies this, add
      ensures Valid() && items == [add] && fresh(tbl)
    {
      hide MapOf, AppOk, Table.ChainsOk, Low, Pow2, Stored, DistinctKeys;
      OneKey(add);
      head := add;
      add.prev := null;
      tbl := new Table(hash, add);
      SingleOk(add);
      assert [] + [add] == [add];
      AddHashed(add, []);
    }

    /** What both branches go on with: the count, the hash value and the bucket. */
    method AddHashed(add: Item, ghost s: seq<Item>)
      requires tbl != null && tbl.hash == hash && tbl.tail == add && tbl.numItems == |s| && tbl.ChainsOk(s)
      requires AppOk(s + [add], head) && DistinctKeys(s + [add]) && HashesOk(s, hash) && add !in s
      modifies `items, tbl, tbl.buckets, add`hashv, SetOf(s + [add])`hhPrev, SetOf(s + [add])`hhNext
      ensures Valid() && items == s + [add] && tbl == old(tbl)
    {
      hide MapOf, AppOk, Table.ChainsOk, Low, Pow2, Stored, HashesOk, DistinctKeys;
      assert add !in SetOf(s);
      tbl.numItems := tbl.numItems + 1;
      add.hashv := hash(add.key);
      HashesAdded(s, add, hash);
      tbl.AddToBkt(add, s);
      items := s + [add];
      MakeStored(tbl, head, s + [add]);
    }

    /** The branch that appends to the application-order list. */
    method AddLast(add: Item)
      requires Valid() && items != [] && add.next == null && add !in items
      requires forall x | x in items :: x.key != add.key
      modifies this, add, tbl, tbl.buckets
      modifies SetOf(items)`next, SetOf(items)`hhPrev, SetOf(items)`hhNext
      ensures Valid() && items == old(items) + [add] && tbl == old(tbl)
    {
      hide MapOf, AppOk, Table.ChainsOk, Low, Pow2, DistinctKeys, HashesOk, Stored;
      ghost var s := items;
      StoredParts(tbl, head, s);
      KeysAdded(s, add);
      LinkLast(tbl.tail, add, head, s);
      tbl.tail := add;
      AddHashed(add, s);
    }

    /**
     * HASH_DELETE, also with the head variable itself as the argument: the element leaves both link
     * structures, and deleting the last element frees the table.
     */
    method Delete(delptr: Operand)
      requires Valid() && Eval(delptr) != null && Eval(delptr) in items
      modifies this, tbl, if tbl == null then {} else {tbl.buckets}
      modifies SetOf(items)`next, SetOf(items)`prev, SetOf(items)`hhPrev, SetOf(items)`hhNext
      ensures Valid()
      ensures var x := old(Eval(delptr));
              exists i :: 0 <= i < |old(items)| && old(items)[i] == x && items == old(items)[..i] + old(items)[i + 1..]
      ensures Contents() == old(Contents()) - {old(Eval(delptr).key)}
    {
      hide MapOf, AppOk, Table.ChainsOk, DistinctKeys, Stored;
      StoredParts(tbl, head, items);
      ghost var i :| 0 <= i < |items| && items[i] == Eval(delptr);
      MapOfRemoved(items, i);
      AloneInList(items, head, i);
      if Eval(delptr).prev == null && Eval(delptr).next == null {
        assert items[..i] + items[i + 1..] == [];
        head := null;
        tbl := null;
        items := [];
      } else {
        DeleteOneOf(delptr, i);
      }
    }

    /** The branch of HASH_DELETE for a table with further elements. */
    method DeleteOneOf(delptr: Operand, ghost i: nat)
      requires Valid() && i < |items| && items[i] == Eval(delptr) && |items| > 1
      modifies this`head, this`items, tbl, tbl.buckets
      modifies SetOf(items)`next, SetOf(items)`prev, SetOf(items)`hhPrev, SetOf(items)`hhNext
      ensures Valid() && tbl == old(tbl)
      ensures items == old(items)[..i] + old(items)[i + 1..]
    {
      hide MapOf, AppOk, Table.ChainsOk, DistinctKeys, NoDup, Stored, HashesOk;
      ghost var s, r := items, items[..i] + items[i + 1..];
      StoredParts(tbl, head, s);
      RemovedItem(s, i, hash);
      UnlinkApp(delptr, i);
      UnlinkBucket(s, i, r);
    }

    /** The bucket half of HASH_DELETE. */
    method UnlinkBucket(ghost s: seq<Item>, ghost i: nat, ghost r: seq<Item>)
      requires tbl != null && tbl.hash == hash && tbl.ChainsOk(s) && tbl.numItems == |s| && HashesOk(s, hash)
      requires i < |s| && tbl.hhDel == s[i] && r == s[..i] + s[i + 1..] && r != [] && DistinctKeys(s)
      requires AppOk(r, head) && tbl.tail == r[|r| - 1]
      modifies `items, tbl`chains, tbl`numItems, tbl.buckets, SetOf(s)`hhPrev, SetOf(s)`hhNext
      ensures Valid() && items == r
    {
      hide MapOf, AppOk, Table.ChainsOk, DistinctKeys, NoDup, Stored, HashesOk;
      RemovedItem(s, i, hash);
      tbl.DelInBkt(s, i, tbl.hhDel);
      tbl.numItems := tbl.numItems - 1;
      items := r;
      MakeStored(tbl, head, r);
    }

    /** The application-order half of HASH_DELETE. */
    method UnlinkApp(delptr: Operand, ghost i: nat)
      requires tbl != null && AppOk(items, head) && NoDup(items)
      requires i < |items| && items[i] == Eval(delptr) && |items| > 1 && tbl.tail == items[|items| - 1]
      modifies `head, tbl`hhDel, tbl`tail, SetOf(items)`next, SetOf(items)`prev
      ensures var t := items[..i] + items[i + 1..];
              AppOk(t, head) && tbl.tail == t[|t| - 1] && tbl.hhDel == items[i]
    {
      tbl.hhDel := Eval(delptr);
      if Eval(delptr) == tbl.tail {
        tbl.tail := Eval(delptr).prev;
      }
      if Eval(delptr).prev != null {
        Eval(delptr).prev.next := Eval(delptr).next;
      } else {
        head := Eval(delptr).next;
      }
      if tbl.hhDel.next != null {
        tbl.hhDel.next.prev := tbl.hhDel.prev;
      }
      SkipOneApp(items, i, head);
    }
  }

  /** An element without neighbours is the only one. */
  lemma AloneInList(s: seq<Item>, head: Item?, i: nat)
    requires AppOk(s, head) && i < |s|
    ensures s[i].prev == null && s[i].next == null <==> |s| == 1
  {
    assert s[i].prev == ItemAt(s, i - 1) && s[i].next == ItemAt(s, i + 1);
  }

  lemma KeysDistinctItems(items: seq<Item>)
    requires DistinctKeys(items)
    ensures NoDup(items)
  {
  }

  lemma SkipOneApp(c: seq<Item>, j: nat, head: Item?)
    requires j < |c| && head == ItemAt(c, if j == 0 then 1 else 0)
    requires forall i {:trigger c[i].prev} | 0 <= i < |c| && i != j ::
               c[i].prev == if i == j + 1 then ItemAt(c, j - 1) else ItemAt(c, i - 1)
    requires forall i {:trigger c[i].next} | 0 <= i < |c| && i != j ::
               c[i].next == if i == j - 1 then ItemAt(c, j + 1) else ItemAt(c, i + 1)
    ensures AppOk(c[..j] + c[j + 1..], head)
  {
    var d := c[..j] + c[j + 1..];
    forall i | 0 <= i < |d|
      ensures d[i].prev == ItemAt(d, i - 1) && d[i].next == ItemAt(d, i + 1)
    {
      assert d[i] == if i < j then c[i] else c[i + 1];
    }
  }

  lemma HeadOfList(s: seq<Item>, head: Item?)
    requires AppOk(s, head) && s != []
    ensures head == s[0]
  {
  }

  lemma RemovedItem(items: seq<Item>, i: nat, hash: Hash)
    requires HashesOk(items, hash) && DistinctKeys(items) && i < |items|
    ensures NoDup(items) && items[i].hashv == hash(items[i].key)
    ensures var r := items[..i] + items[i + 1..];
            |r| == |items| - 1 && HashesOk(r, hash) && DistinctKeys(r) && SetOf(r) <= SetOf(items)
  {
    KeysDistinctItems(items);
    RemovedKeys(items, i);
  }

  lemma HashesAdded(items: seq<Item>, x: Item, hash: Hash)
    requires HashesOk(items, hash) && x.hashv == hash(x.key)
    ensures HashesOk(items + [x], hash)
  {
  }

  lemma KeysAdded(items: seq<Item>, x: Item)
    requires DistinctKeys(items) && forall y | y in items :: y.key != x.key
    ensures DistinctKeys(items + [x])
  {
  }

  lemma OneKey(x: Item)
    ensures DistinctKeys([x]) && SetOf([x]) == {x}
  {
  }

  lemma SingleOk(x: Item)
    requires x.prev == null && x.next == null
    ensures AppOk([] + [x], x)
  {
  }

  lemma MapOfAdded(items: seq<Item>, x: Item)
    ensures MapOf(items + [x]) == MapOf(items)[x.key := x]
  {
    assert (items + [x])[..|items|] == items;
  }

  /** Appending to the application-order list. */
  method LinkLast(tail: Item, add: Item, head: Item?, ghost s: seq<Item>)
    requires AppOk(s, head) && s != [] && tail == s[|s| - 1] && add !in s && add.next == null
    modifies tail`next, add`prev
    ensures AppOk(s + [add], head)
  {
    tail.next := add;
    add.prev := tail;
    ghost var t := s + [add];
    forall i | 0 <= i < |t|
      ensures t[i].prev == ItemAt(t, i - 1) && t[i].next == ItemAt(t, i + 1)
    {
      if i < |s| {
        assert old(s[i].prev) == ItemAt(s, i - 1) && old(s[i].next) == ItemAt(s, i + 1);
      }
    }
  }
}
