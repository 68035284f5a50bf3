/**
 * The integrity check of HASH_DEBUG builds, HASH_FSCK (src/uthash.h:170-237), as a program. On a table whose links
 * end when they are followed forwards it reports damage if and only if there is some; on a table that satisfies Valid
 * there is none.
 */
module HashFsck {
  import opened HashChains
  import opened HashTable

  /** Followed forwards from head, the application order is s; prev may be damaged. */
  ghost predicate AppForward(s: seq<Item>, head: Item?)
    reads SetOf(s)`next
  {
    head == ItemAt(s, 0) && forall i {:trigger s[i].next} | 0 <= i < |s| :: s[i].next == ItemAt(s, i + 1)
  }

  /** The same for a chain; hhPrev may be damaged. */
  ghost predicate ChainForward(c: seq<Item>, head: Item?)
    reads SetOf(c)`hhNext
  {
    head == ItemAt(c, 0) && forall i {:trigger c[i].hhNext} | 0 <= i < |c| :: c[i].hhNext == ItemAt(c, i + 1)
  }

  ghost predicate ChainsForward(chains: seq<seq<Item>>, buckets: seq<Bucket>)
    reads Members(chains)`hhNext
  {
    |buckets| == |chains| && forall b | 0 <= b < |chains| :: ChainForward(chains[b], buckets[b].head)
  }

  /** The walk along the application order. */
  method CheckApp(head: Item?, ghost s: seq<Item>) returns (ok: bool, count: nat)
    requires AppForward(s, head)
    ensures count == |s| && (ok <==> AppOk(s, head))
  {
    var thh, prev: Item? := head, null;
    ok, count := true, 0;
    while thh != null
      invariant count <= |s| && thh == ItemAt(s, count) && prev == ItemAt(s, count - 1)
      invariant ok <==> forall i {:trigger s[i].prev} | 0 <= i < count :: s[i].prev == ItemAt(s, i - 1)
      decreases |s| - count
    {
      if prev != thh.prev {
        ok := false;
      }
      count := count + 1;
      prev := thh;
      thh := thh.next;
    }
  }

  /** One chain against the count of its bucket. */
  method CheckChain(bucket: Bucket, ghost c: seq<Item>) returns (ok: bool, count: nat)
    requires ChainForward(c, bucket.head)
    ensures count == |c| && (ok <==> ChainOk(c, bucket.head) && bucket.count == |c|)
  {
    var thh, prev: Item? := bucket.head, null;
    ok, count := true, 0;
    while thh != null
      invariant count <= |c| && thh == ItemAt(c, count) && prev == ItemAt(c, count - 1)
      invariant ok <==> forall i {:trigger c[i].hhPrev} | 0 <= i < count :: c[i].hhPrev == ItemAt(c, i - 1)
      decreases |c| - count
    {
      if prev != thh.hhPrev {
        ok := false;
      }
      count := count + 1;
      prev := thh;
      thh := thh.hhNext;
    }
    if bucket.count != count {
      ok := false;
    }
  }

  /** The first loop: every bucket's chain against its count, and the total. */
  method CheckBuckets(t: Table) returns (ok: bool, total: nat)
    requires ChainsForward(t.chains, t.buckets[..]) && t.numBuckets == |t.chains|
    ensures total == TotalExcess(t.chains, 0) && (ok <==> Linked(t.chains, t.buckets[..]))
  {
    ghost var bs := t.buckets[..];
    var bktI := 0;
    ok, total := true, 0;
    while bktI < t.numBuckets
      invariant 0 <= bktI <= t.numBuckets && total == TotalExcess(t.chains[..bktI], 0)
      invariant ok <==> Sound(t.chains, bs, bktI)
    {
      assert ChainForward(t.chains[bktI], bs[bktI].head);
      var chainOk, count := CheckChain(t.buckets[bktI], t.chains[bktI]);
      TotalMore(t.chains, bktI);
      total := total + count;
      if !chainOk {
        ok := false;
      }
      bktI := bktI + 1;
    }
    assert t.chains[..|t.chains|] == t.chains;
  }

  /** The first n buckets describe their chains. */
  ghost predicate Sound(chains: seq<seq<Item>>, buckets: seq<Bucket>, n: nat)
    requires n <= |chains| == |buckets|
    reads Members(chains)`hhPrev, Members(chains)`hhNext
  {
    forall b | 0 <= b < n :: ChainOk(chains[b], buckets[b].head) && buckets[b].count == |chains[b]|
  }

  lemma TotalMore(chains: seq<seq<Item>>, n: nat)
    requires n < |chains|
    ensures TotalExcess(chains[..n + 1], 0) == TotalExcess(chains[..n], 0) + |chains[n]|
  {
    assert chains[..n + 1][..n] == chains[..n];
  }

  /** HASH_FSCK stops at the first damage; here it goes on to the end and answers whether there was none. */
  method Fsck(h: HashHead) returns (ok: bool)
    requires h.head != null ==>
               h.tbl != null && h.tbl.numBuckets == |h.tbl.chains| && ChainsForward(h.tbl.chains, h.tbl.buckets[..])
               && AppForward(h.items, h.head)
    ensures h.head == null ==> ok
    ensures h.head != null ==>
              (ok <==> Linked(h.tbl.chains, h.tbl.buckets[..]) && AppOk(h.items, h.head)
                       && h.tbl.numItems == TotalExcess(h.tbl.chains, 0) == |h.items|)
  {
    hide TotalExcess;
    if h.head == null {
      return true;
    }
    var bucketsOk, total := CheckBuckets(h.tbl);
    var appOk, items := CheckApp(h.head, h.items);
    ok := bucketsOk && total == h.tbl.numItems && appOk && items == h.tbl.numItems;
  }

  /** A table that satisfies Valid passes the check. */
  method FsckValid(h: HashHead) returns (ok: bool)
    requires h.Valid()
    ensures ok
  {
    hide TotalExcess, Stored, Table.ChainsOk;
    if h.items != [] {
      StoredParts(h.tbl, h.head, h.items);
      h.tbl.ChainsParts(h.items);
      assert ChainsForward(h.tbl.chains, h.tbl.buckets[..]);
    }
    ok := Fsck(h);
  }
}
