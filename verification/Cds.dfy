/**
 * Searching and browsing the virtual file system for the content directory service (src/cds.c).
 */
module Cds {
  import opened Sequences
  import opened Vfs

  /** buffer_t, with one entry for every object description that didl_add_item and its like append. */
  class Buffer {
    var entries: seq<VfsItem>

    constructor ()
      ensures entries == []
    {
      entries := [];
    }

    method Add(item: VfsItem)
      modifies this
      ensures entries == old(entries) + [item]
    {
      entries := entries + [item];
    }
  }

  /** The objects deeper than x; they become fewer from parent to child. */
  ghost function Deep(v: Dlna, x: VfsItem): set<VfsItem>
    reads v
  {
    set y | y in v.nodes && v.Deeper(x, y)
  }

  /** The matching resources below x, in preorder. */
  ghost function Found(v: Dlna, x: VfsItem, matches: VfsItem -> bool): seq<VfsItem>
    requires v.Valid() && x in v.nodes
    reads v, v.nodes
    decreases Deep(v, x), 1
  {
    if x.kind.Container? then
      KidsAreDeeper(v, x);
      FoundAmong(v, x, Kids(x.children), matches)
    else []
  }

  /** The matching resources among some children of x and below them, in preorder. */
  ghost function FoundAmong(v: Dlna, x: VfsItem, c: seq<VfsItem>, matches: VfsItem -> bool): seq<VfsItem>
    requires v.Valid() && forall k | k in c :: k in v.nodes && v.Deeper(x, k)
    reads v, v.nodes
    decreases Deep(v, x), 0, |c|
  {
    if c == [] then []
    else
      DeepShrinks(v, x, c[0]);
      Entry(v, c[0], matches) + FoundAmong(v, x, c[1..], matches)
  }

  /** What one child contributes. */
  ghost function Entry(v: Dlna, x: VfsItem, matches: VfsItem -> bool): seq<VfsItem>
    requires v.Valid() && x in v.nodes
    reads v, v.nodes
    decreases Deep(v, x), 2
  {
    match x.kind
    case Container => Found(v, x, matches)
    case Resource => if matches(x) then [x] else []
  }

  lemma KidsAreDeeper(v: Dlna, x: VfsItem)
    requires v.Valid() && x in v.nodes && x.kind.Container?
    ensures Terminated(x.children) && x.childrenCount == |Kids(x.children)|
    ensures forall k | k in Kids(x.children) :: k in v.nodes && v.Deeper(x, k)
  {
    assert v.GoodContainer(x, null);
    forall k | k in Kids(x.children)
      ensures k in v.nodes && v.Deeper(x, k)
    {
      assert v.IsChild(x, k, null);
    }
  }

  lemma DeepShrinks(v: Dlna, x: VfsItem, k: VfsItem)
    requires k in v.nodes && v.Deeper(x, k)
    ensures Deep(v, k) < Deep(v, x)
  {
    assert k in Deep(v, x) && k !in Deep(v, k);
  }

  /** At most count elements; all if count is 0, none if it is negative. */
  ghost function Limited<T>(s: seq<T>, count: int): seq<T> {
    if count == 0 then s
    else if count < 0 then []
    else if count <= |s| then s[..count]
    else s
  }

  lemma LimitedIs<T>(s: seq<T>, count: int)
    ensures count == 0 || count >= |s| ==> Limited(s, count) == s
    ensures 0 < count < |s| ==> Limited(s, count) == s[..count]
    ensures count < 0 ==> Limited(s, count) == []
  {
  }

  lemma LimitedNothing<T>(count: int)
    ensures Limited<T>([], count) == []
  {
  }

  lemma LimitedOne<T>(x: T, count: int)
    requires count >= 0
    ensures Limited([x], count) == [x] && Limited<T>([], count) == []
  {
  }

  lemma LimitedMore<T>(s: seq<T>, e: seq<T>, count: int)
    ensures count == 0 || |Limited(s, count)| < count ==>
              Limited(s, count) == s && Limited(s + e, count) == s + Limited(e, if count == 0 then 0 else count - |s|)
    ensures !(count == 0 || |Limited(s, count)| < count) ==> Limited(s + e, count) == Limited(s, count)
  {
  }

  /**
   * cds_search_recursive: the first count matches below item are written, in preorder, and counted;
   * the budget handed to a deeper level is never the 0 that would mean no limit.
   */
  method SearchRecursive(v: Dlna, item: VfsItem, out: Buffer, count: int, matches: VfsItem -> bool)
    returns (resultCount: nat)
    requires v.Valid() && item in v.nodes
    modifies out
    ensures out.entries == old(out.entries) + Limited(Found(v, item, matches), count)
    ensures resultCount == |Limited(Found(v, item, matches), count)|
    ensures var found := Found(v, item, matches);
            && (count == 0 || count >= |found| ==> out.entries == old(out.entries) + found)
            && (0 < count < |found| ==> out.entries == old(out.entries) + found[..count] && resultCount == count)
            && (count < 0 ==> out.entries == old(out.entries) && resultCount == 0)
    decreases Deep(v, item), 1
  {
    hide Limited, Dlna.ValidBut, Dlna.Deeper, NoDup, Entry, FoundAmong;
    LimitedNothing<VfsItem>(count);
    LimitedIs(Found(v, item, matches), count);
    NothingFound(v, item, matches);
    resultCount := 0;
    assert out.entries == out.entries + [];
    if !item.kind.Container? {
      return;
    }
    KidsAreDeeper(v, item);
    ghost var kids := Kids(item.children);
    ghost var done: seq<VfsItem> := [];
    var i := 0;
    while item.children[i] != null
      invariant 0 <= i <= |kids|
      invariant Found(v, item, matches) == done + FoundAmong(v, item, kids[i..], matches)
      invariant out.entries == old(out.entries) + Limited(done, count)
      invariant resultCount == |Limited(done, count)|
      decreases |kids| - i
    {
      var x: VfsItem := item.children[i];
      assert kids[i..][0] == x && kids[i..][1..] == kids[i + 1..];
      DeepShrinks(v, item, x);
      FoundStep(v, item, kids, i, done, matches);
      resultCount := SearchChild(v, x, out, count, resultCount, old(out.entries), done, matches);
      done := done + Entry(v, x, matches);
      i := i + 1;
    }
    assert kids[i..] == [] && done + [] == done;
  }

  lemma NothingFound(v: Dlna, x: VfsItem, matches: VfsItem -> bool)
    requires v.Valid()
    ensures FoundAmong(v, x, [], matches) == []
  {
  }

  lemma FoundStep(v: Dlna, x: VfsItem, kids: seq<VfsItem>, i: nat, done: seq<VfsItem>, matches: VfsItem -> bool)
    requires v.Valid() && (forall k | k in kids :: k in v.nodes && v.Deeper(x, k)) && i < |kids|
    ensures done + FoundAmong(v, x, kids[i..], matches)
         == (done + Entry(v, kids[i], matches)) + FoundAmong(v, x, kids[i + 1..], matches)
  {
    hide Dlna.ValidBut, Dlna.Deeper, Entry;
    assert kids[i..][0] == kids[i] && kids[i..][1..] == kids[i + 1..];
  }

  /** The body of the loop. */
  method SearchChild(v: Dlna, x: VfsItem, out: Buffer, count: int, resultCount: nat,
                     ghost base: seq<VfsItem>, ghost done: seq<VfsItem>, matches: VfsItem -> bool)
    returns (newCount: nat)
    requires v.Valid() && x in v.nodes
    requires out.entries == base + Limited(done, count) && resultCount == |Limited(done, count)|
    modifies out
    ensures out.entries == base + Limited(done + Entry(v, x, matches), count)
    ensures newCount == |Limited(done + Entry(v, x, matches), count)|
    decreases Deep(v, x), 3
  {
    hide Limited, Dlna.ValidBut, Dlna.Deeper, Entry;
    LimitedMore(done, Entry(v, x, matches), count);
    newCount := resultCount;
    if count == 0 || resultCount < count {
      var n := SearchEntry(v, x, out, if count == 0 then 0 else count - resultCount, count, matches);
      newCount := resultCount + n;
    }
  }

  /** A child within the limit. */
  method SearchEntry(v: Dlna, x: VfsItem, out: Buffer, budget: nat, ghost count: int, matches: VfsItem -> bool)
    returns (n: nat)
    requires v.Valid() && x in v.nodes && (budget == 0 ==> count == 0)
    modifies out
    ensures out.entries == old(out.entries) + Limited(Entry(v, x, matches), budget)
    ensures n == |Limited(Entry(v, x, matches), budget)|
    decreases Deep(v, x), 2
  {
    match x.kind {
      case Container =>
        n := SearchRecursive(v, x, out, budget, matches);
      case Resource =>
        n := 0;
        if matches(x) {
          out.Add(x);
          n := n + 1;
        }
    }
  }

  // ---- what is found ----

  lemma {:induction false} AmongIffEntry(v: Dlna, x: VfsItem, c: seq<VfsItem>, matches: VfsItem -> bool, y: VfsItem)
    requires v.Valid() && forall k | k in c :: k in v.nodes && v.Deeper(x, k)
    ensures y in FoundAmong(v, x, c, matches) <==> exists i :: 0 <= i < |c| && y in Entry(v, c[i], matches)
    decreases |c|
  {
    hide Dlna.ValidBut, Dlna.Deeper, Entry;
    if c != [] {
      AmongIffEntry(v, x, c[1..], matches, y);
      if i :| 0 <= i < |c[1..]| && y in Entry(v, c[1..][i], matches) {
        assert y in Entry(v, c[i + 1], matches);
      }
      if i :| 0 < i < |c| && y in Entry(v, c[i], matches) {
        assert y in Entry(v, c[1..][i - 1], matches);
      }
    }
  }

  /** Only matching resources below x are found. */
  lemma {:induction false} FoundIsBelow(v: Dlna, x: VfsItem, matches: VfsItem -> bool, y: VfsItem) returns (k: nat)
    requires v.Valid() && x in v.nodes && y in Found(v, x, matches)
    ensures Dlna.Below(x, y, k) && y.kind.Resource? && matches(y)
    decreases Deep(v, x)
  {
    hide Dlna.ValidBut, Dlna.Deeper;
    KidsAreDeeper(v, x);
    var c := Kids(x.children);
    AmongIffEntry(v, x, c, matches, y);
    var i :| 0 <= i < |c| && y in Entry(v, c[i], matches);
    if c[i].kind.Container? {
      DeepShrinks(v, x, c[i]);
      k := FoundIsBelow(v, c[i], matches, y);
    } else {
      k := 0;
    }
    k := k + 1;
    assert Dlna.Below(c[i], y, k - 1);
  }

  /** Every matching resource below a container is found. */
  lemma {:induction false} BelowIsFound(v: Dlna, x: VfsItem, matches: VfsItem -> bool, y: VfsItem, k: nat)
    requires v.Valid() && x in v.nodes && Dlna.Below(x, y, k) && x.kind.Container?
    requires y.kind.Resource? && matches(y)
    ensures y in Found(v, x, matches)
    decreases k
  {
    hide Dlna.ValidBut, Dlna.Deeper;
    KidsAreDeeper(v, x);
    var c := Kids(x.children);
    var i :| 0 <= i < |c| && Dlna.Below(c[i], y, k - 1);
    if c[i].kind.Container? {
      BelowIsFound(v, c[i], matches, y, k - 1);
    }
    assert y in Entry(v, c[i], matches);
    AmongIffEntry(v, x, c, matches, y);
  }

  /** Nothing is found twice. */
  lemma {:induction false} FoundOnce(v: Dlna, x: VfsItem, matches: VfsItem -> bool)
    requires v.Valid() && x in v.nodes
    ensures NoDup(Found(v, x, matches))
    decreases Deep(v, x), 1, 0
  {
    if x.kind.Container? {
      KidsAreDeeper(v, x);
      assert v.GoodContainer(x, null);
      forall k | k in Kids(x.children)
        ensures k.parent == x
      {
        assert v.IsChild(x, k, null);
      }
      AmongOnce(v, x, Kids(x.children), matches);
    }
  }

  lemma {:induction false} AmongOnce(v: Dlna, x: VfsItem, c: seq<VfsItem>, matches: VfsItem -> bool)
    requires v.Valid() && x in v.nodes && NoDup(c)
    requires forall k | k in c :: k in v.nodes && v.Deeper(x, k) && k.parent == x
    ensures NoDup(FoundAmong(v, x, c, matches))
    decreases Deep(v, x), 0, |c|
  {
    hide Dlna.ValidBut, Dlna.Deeper;
    if c != [] {
      DeepShrinks(v, x, c[0]);
      if c[0].kind.Container? {
        FoundOnce(v, c[0], matches);
      }
      AmongOnce(v, x, c[1..], matches);
      var e, rest := Entry(v, c[0], matches), FoundAmong(v, x, c[1..], matches);
      forall y | y in e
        ensures y !in rest
      {
        if y in rest {
          AmongIffEntry(v, x, c[1..], matches, y);
          var i :| 0 <= i < |c| - 1 && y in Entry(v, c[1..][i], matches);
          var k0 := EntryIsBelow(v, c[0], matches, y);
          var k1 := EntryIsBelow(v, c[1..][i], matches, y);
          SiblingsDisjoint(v, x, c[0], c[1..][i], y, k0, k1);
        }
      }
      NoDupConcat(e, rest);
    }
  }

  lemma NoDupConcat(a: seq<VfsItem>, b: seq<VfsItem>)
    requires NoDup(a) && NoDup(b) && forall y | y in a :: y !in b
    ensures NoDup(a + b)
  {
    var c := a + b;
    forall i, j | 0 <= i < j < |c|
      ensures c[i] != c[j]
    {
      if i < |a| <= j {
        assert c[i] in a && c[j] == b[j - |a|];
      }
    }
  }

  lemma EntryIsBelow(v: Dlna, x: VfsItem, matches: VfsItem -> bool, y: VfsItem) returns (k: nat)
    requires v.Valid() && x in v.nodes && y in Entry(v, x, matches)
    ensures Dlna.Below(x, y, k)
  {
    if x.kind.Container? {
      k := FoundIsBelow(v, x, matches, y);
    } else {
      k := 0;
    }
  }

  /** No node is below two different children of x. */
  lemma {:induction false} SiblingsDisjoint(v: Dlna, x: VfsItem, a: VfsItem, b: VfsItem, y: VfsItem, i: nat, j: nat)
    requires v.Valid() && x in v.nodes && a in v.nodes && b in v.nodes && a != b
    requires a.parent == x && b.parent == x && v.Deeper(x, a) && v.Deeper(x, b)
    requires Dlna.Below(a, y, i) && Dlna.Below(b, y, j)
    ensures false
    decreases i + j
  {
    hide Dlna.ValidBut;
    if y == a {
      v.UpOne(b, y, j);
      v.BelowIsDeeper(b, x, j - 1);
    } else if y == b {
      v.UpOne(a, y, i);
      v.BelowIsDeeper(a, x, i - 1);
    } else {
      v.UpOne(a, y, i);
      v.UpOne(b, y, j);
      SiblingsDisjoint(v, x, a, b, y.parent, i - 1, j - 1);
    }
  }

  // ---- the order in which it is found ----

  /** path leads from x to y: at each container it says which child to take. */
  ghost predicate Leads(x: VfsItem, path: seq<nat>, y: VfsItem)
    reads *
    decreases |path|
  {
    if path == [] then x == y
    else
      && x.kind.Container? && Terminated(x.children) && path[0] < |Kids(x.children)|
      && Leads(Kids(x.children)[path[0]], path[1..], y)
  }

  /** The paths part at some container, and p takes an earlier child there. */
  predicate Earlier(p: seq<nat>, q: seq<nat>) {
    p != [] && q != [] && (p[0] < q[0] || (p[0] == q[0] && Earlier(p[1..], q[1..])))
  }

  /** Everything an entry contributes is reached from its object. */
  lemma {:induction false} EntryLeads(v: Dlna, x: VfsItem, matches: VfsItem -> bool, y: VfsItem) returns (p: seq<nat>)
    requires v.Valid() && x in v.nodes && y in Entry(v, x, matches)
    ensures Leads(x, p, y)
    decreases Deep(v, x)
  {
    hide Dlna.ValidBut, Dlna.Deeper;
    if x.kind.Container? {
      KidsAreDeeper(v, x);
      var c := Kids(x.children);
      AmongIffEntry(v, x, c, matches, y);
      var i :| 0 <= i < |c| && y in Entry(v, c[i], matches);
      DeepShrinks(v, x, c[i]);
      var q := EntryLeads(v, c[i], matches, y);
      p := [i] + q;
      assert p[1..] == q;
    } else {
      p := [];
    }
  }

  /** A resource found earlier is reached through an earlier child where the paths part. */
  lemma {:induction false} FoundInOrder(v: Dlna, x: VfsItem, matches: VfsItem -> bool, i: nat, j: nat)
      returns (p: seq<nat>, q: seq<nat>)
    requires v.Valid() && x in v.nodes && i < j < |Found(v, x, matches)|
    ensures Leads(x, p, Found(v, x, matches)[i]) && Leads(x, q, Found(v, x, matches)[j]) && Earlier(p, q)
    decreases Deep(v, x), 1, 0
  {
    hide Dlna.ValidBut, Dlna.Deeper;
    KidsAreDeeper(v, x);
    var c := Kids(x.children);
    assert c[0..] == c;
    p, q := AmongInOrder(v, x, 0, matches, i, j);
  }

  /** The same for the children from the k-th on. */
  lemma {:induction false} AmongInOrder(v: Dlna, x: VfsItem, k: nat, matches: VfsItem -> bool, i: nat, j: nat)
      returns (p: seq<nat>, q: seq<nat>)
    requires v.Valid() && x in v.nodes && x.kind.Container? && Terminated(x.children) && k <= |Kids(x.children)|
    requires forall y | y in Kids(x.children) :: y in v.nodes && v.Deeper(x, y)
    requires i < j < |FoundAmong(v, x, Kids(x.children)[k..], matches)|
    ensures var r := FoundAmong(v, x, Kids(x.children)[k..], matches);
            Leads(x, p, r[i]) && Leads(x, q, r[j]) && Earlier(p, q) && p[0] >= k
    decreases Deep(v, x), 0, |Kids(x.children)| - k
  {
    hide Dlna.ValidBut, Dlna.Deeper, Entry, Found;
    var c := Kids(x.children);
    AmongSplits(v, x, k, matches);
    var e, rest := Entry(v, c[k], matches), FoundAmong(v, x, c[k + 1..], matches);
    DeepShrinks(v, x, c[k]);
    if j < |e| {
      EntryOfOne(v, c[k], matches);
      var p1, q1 := FoundInOrder(v, c[k], matches, i, j);
      p, q := [k] + p1, [k] + q1;
      assert p[1..] == p1 && q[1..] == q1;
    } else if i < |e| {
      var p1 := EntryLeads(v, c[k], matches, e[i]);
      q := AmongLeads(v, x, k + 1, matches, rest[j - |e|]);
      p := [k] + p1;
      assert p[1..] == p1;
    } else {
      p, q := AmongInOrder(v, x, k + 1, matches, i - |e|, j - |e|);
    }
  }

  lemma AmongSplits(v: Dlna, x: VfsItem, k: nat, matches: VfsItem -> bool)
    requires v.Valid() && x.kind.Container? && Terminated(x.children) && k <= |Kids(x.children)|
    requires forall y | y in Kids(x.children) :: y in v.nodes && v.Deeper(x, y)
    ensures var c := Kids(x.children);
            FoundAmong(v, x, c[k..], matches)
            == if k == |c| then [] else Entry(v, c[k], matches) + FoundAmong(v, x, c[k + 1..], matches)
  {
    hide Dlna.ValidBut, Dlna.Deeper, Entry;
    var c := Kids(x.children);
    if k < |c| {
      assert c[k..][0] == c[k] && c[k..][1..] == c[k + 1..];
    }
  }

  /** Two different resources in one entry come from below a container. */
  lemma EntryOfOne(v: Dlna, x: VfsItem, matches: VfsItem -> bool)
    requires v.Valid() && x in v.nodes && |Entry(v, x, matches)| > 1
    ensures Entry(v, x, matches) == Found(v, x, matches)
  {
    hide Dlna.ValidBut, Found;
  }

  lemma AmongLeads(v: Dlna, x: VfsItem, k: nat, matches: VfsItem -> bool, y: VfsItem) returns (p: seq<nat>)
    requires v.Valid() && x in v.nodes && x.kind.Container? && Terminated(x.children) && k <= |Kids(x.children)|
    requires forall z | z in Kids(x.children) :: z in v.nodes && v.Deeper(x, z)
    requires y in FoundAmong(v, x, Kids(x.children)[k..], matches)
    ensures Leads(x, p, y) && p != [] && p[0] >= k
  {
    hide Dlna.ValidBut, Dlna.Deeper, Entry;
    var c := Kids(x.children)[k..];
    AmongIffEntry(v, x, c, matches, y);
    var i :| 0 <= i < |c| && y in Entry(v, c[i], matches);
    var q := EntryLeads(v, c[i], matches, y);
    p := [k + i] + q;
    assert p[1..] == q;
  }

  /** Only one path leads to an object, so the order is that of the paths. */
  lemma {:induction false} OnePath(v: Dlna, x: VfsItem, y: VfsItem, p: seq<nat>, q: seq<nat>)
    requires v.Valid() && x in v.nodes && Leads(x, p, y) && Leads(x, q, y)
    ensures p == q
    decreases |p|
  {
    hide Dlna.ValidBut;
    if x.kind.Container? {
      KidsAreDeeper(v, x);
    }
    if p != [] {
      LeadsBelow(Kids(x.children)[p[0]], p[1..], y);
    }
    if q != [] {
      LeadsBelow(Kids(x.children)[q[0]], q[1..], y);
    }
    if p == [] && q != [] {
      v.BelowIsDeeper(Kids(x.children)[q[0]], x, |q| - 1);
    } else if p != [] && q == [] {
      v.BelowIsDeeper(Kids(x.children)[p[0]], x, |p| - 1);
    } else if p != [] {
      var c := Kids(x.children);
      KidsHaveParent(v, x);
      if p[0] != q[0] {
        SiblingsDisjoint(v, x, c[p[0]], c[q[0]], y, |p| - 1, |q| - 1);
      }
      OnePath(v, c[p[0]], y, p[1..], q[1..]);
    }
  }

  lemma KidsHaveParent(v: Dlna, x: VfsItem)
    requires v.Valid() && x in v.nodes && x.kind.Container?
    ensures Terminated(x.children) && NoDup(Kids(x.children)) && forall k | k in Kids(x.children) :: k.parent == x
  {
    assert v.GoodContainer(x, null);
    forall k | k in Kids(x.children)
      ensures k.parent == x
    {
      assert v.IsChild(x, k, null);
    }
  }

  lemma {:induction false} LeadsBelow(x: VfsItem, p: seq<nat>, y: VfsItem)
    requires Leads(x, p, y)
    ensures Dlna.Below(x, y, |p|)
    decreases |p|
  {
    if p != [] {
      LeadsBelow(Kids(x.children)[p[0]], p[1..], y);
    }
  }

  // ---- browsing ----

  /** The page of children that starts at index: count of them, or all if count is 0. */
  ghost function Page(c: seq<VfsItem>, index: int, count: int): seq<VfsItem> {
    Limited(c[if index < 0 then 0 else if index < |c| then index else |c|..], count)
  }

  /**
   * cds_browse_directchildren, without the response arguments that only repeat the counters: the
   * requested page of children is written, and counted.
   */
  method BrowseDirectChildren(v: Dlna, item: VfsItem, out: Buffer, index: int, count: int) returns (resultCount: int)
    requires v.Valid() && item in v.nodes
    modifies out
    ensures item.kind.Resource? ==> resultCount == -1 && out.entries == old(out.entries)
    ensures item.kind.Container? ==>
              && Terminated(item.children)
              && out.entries == old(out.entries) + Page(Kids(item.children), index, count)
              && resultCount == |Page(Kids(item.children), index, count)|
    ensures item.kind.Container? && 0 <= index <= |Kids(item.children)| ==>
              var rest := Kids(item.children)[index..];
              && (count == 0 || count >= |rest| ==> out.entries == old(out.entries) + rest && resultCount == |rest|)
              && (0 < count < |rest| ==> out.entries == old(out.entries) + rest[..count] && resultCount == count)
  {
    hide Limited, Dlna.ValidBut, Dlna.Deeper, NoDup;
    if !item.kind.Container? {
      return -1;
    }
    KidsAreDeeper(v, item);
    ghost var kids := Kids(item.children);
    var items := 0;
    var s := 0;
    while s < index
      invariant items == if s < |kids| then s else |kids|
      invariant 0 <= s && (index >= 0 ==> s <= index) && (index < 0 ==> s == 0)
    {
      if item.children[items] != null {
        items := items + 1;
      }
      s := s + 1;
    }
    ghost var from := kids[items..];
    var limit := count;
    if index == 0 && count == 0 {
      limit := item.childrenCount;
    }
    AllIsEnough(from, count, limit);
    LimitedNothing<VfsItem>(limit);
    LimitedIs(from, count);
    assert out.entries == out.entries + [];
    resultCount := 0;
    ghost var k := 0;
    while item.children[items] != null
      invariant 0 <= k <= |from| && items == |kids| - |from| + k
      invariant out.entries == old(out.entries) + Limited(from[..k], limit)
      invariant resultCount == |Limited(from[..k], limit)|
      decreases |from| - k
    {
      var x: VfsItem := item.children[items];
      assert from[..k + 1] == from[..k] + [x];
      LimitedMore(from[..k], [x], limit);
      if limit == 0 || resultCount < limit {
        LimitedOne(x, if limit == 0 then 0 else limit - resultCount);
        out.Add(x);
        resultCount := resultCount + 1;
      }
      items, k := items + 1, k + 1;
    }
    assert from[..k] == from;
  }

  lemma AllIsEnough<T>(s: seq<T>, count: int, limit: int)
    requires limit == count || (count == 0 && limit == |s|)
    ensures Limited(s, limit) == Limited(s, count)
  {
  }

  /** The pages of one size, from index on, one after the other. */
  ghost function Pages(c: seq<VfsItem>, index: nat, size: nat): seq<VfsItem>
    requires size > 0
    decreases |c| - index
  {
    if index >= |c| then [] else Page(c, index, size) + Pages(c, index + size, size)
  }

  /** Browsing page by page shows every child once, in order. */
  lemma {:induction false} PagesCover(c: seq<VfsItem>, index: nat, size: nat)
    requires size > 0 && index <= |c|
    ensures Pages(c, index, size) == c[index..]
    decreases |c| - index
  {
    if index < |c| {
      var next := index + size;
      if next <= |c| {
        PagesCover(c, next, size);
        assert c[index..] == c[index..next] + c[next..];
        assert c[index..][..size] == c[index..next];
      } else {
        assert Pages(c, next, size) == [];
      }
    }
  }
}
