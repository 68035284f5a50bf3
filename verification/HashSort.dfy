/**
 * HASH_SRT in place (src/uthash.h:458-533): the links of the application order are rearranged run by
 * run, and the result is the list that MergeSort.Sort describes.
 */
module HashSort {
  import opened Sequences
  import opened HashChains
  import opened HashTable
  import opened MergeSort

  /** The output list so far: linked both ways, except that the last next is not set yet. */
  ghost predicate OutOk(o: seq<Item>, list: Item?, tale: Item?)
    reads SetOf(o)`prev, SetOf(o)`next
  {
    && list == ItemAt(o, 0) && tale == ItemAt(o, |o| - 1)
    && (forall i {:trigger o[i].prev} | 0 <= i < |o| :: o[i].prev == ItemAt(o, i - 1))
    && (forall i {:trigger o[i].next} | 0 <= i < |o| - 1 :: o[i].next == ItemAt(o, i + 1))
  }

  /** What is left of the first run: a counted list starting at p. */
  ghost predicate RunOk(a: seq<Item>, p: Item?)
    reads SetOf(a)`next
  {
    && (a != [] ==> p == a[0])
    && forall i {:trigger a[i].next} | 0 <= i < |a| - 1 :: a[i].next == ItemAt(a, i + 1)
  }

  /** The rest of the input from q on, ended by null. */
  ghost predicate RestOk(b: seq<Item>, q: Item?)
    reads SetOf(b)`next
  {
    && q == ItemAt(b, 0)
    && forall i {:trigger b[i].next} | 0 <= i < |b| :: b[i].next == ItemAt(b, i + 1)
  }

  /** Moving e to the end of the output list. */
  method Emit(e: Item, list: Item?, tale: Item?, ghost o: seq<Item>) returns (list': Item?, tale': Item?)
    requires OutOk(o, list, tale) && e !in o && NoDup(o)
    modifies e`prev, SetOf(o)`next
    ensures OutOk(o + [e], list', tale')
  {
    list' := list;
    if tale != null {
      tale.next := e;
    } else {
      list' := e;
    }
    e.prev := tale;
    tale' := e;
    ghost var d := o + [e];
    forall i | 0 <= i < |d|
      ensures d[i].prev == ItemAt(d, i - 1) && (i < |d| - 1 ==> d[i].next == ItemAt(d, i + 1))
    {
      if i < |o| {
        assert old(o[i].prev) == ItemAt(o, i - 1);
        if i < |o| - 1 {
          assert old(o[i].next) == ItemAt(o, i + 1) && o[i] != tale;
        }
      }
    }
  }

  lemma RunTail(a: seq<Item>, p: Item?)
    requires RunOk(a, p) && a != []
    ensures p == a[0] && RunOk(a[1..], a[0].next)
  {
    assert |a| > 1 ==> a[0].next == a[1];
    forall i | 0 <= i < |a[1..]| - 1
      ensures a[1..][i].next == ItemAt(a[1..], i + 1)
    {
      assert a[i + 1].next == ItemAt(a, i + 2);
    }
  }

  lemma RestTail(b: seq<Item>, q: Item?)
    requires RestOk(b, q) && b != []
    ensures q == b[0] && RestOk(b[1..], b[0].next)
  {
    assert b[0].next == ItemAt(b, 1);
    forall i | 0 <= i < |b[1..]|
      ensures b[1..][i].next == ItemAt(b[1..], i + 1)
    {
      assert b[i + 1].next == ItemAt(b, i + 2);
    }
  }

  lemma TakeFirst(s: seq<Item>)
    requires s != []
    ensures s == [s[0]] + s[1..]
  {
  }

  /** What is still to be put out: the merge of the run a and the next qsize elements of b. */
  function Pending(cmp: Cmp<Item>, a: seq<Item>, b: seq<Item>, qsize: nat): seq<Item> {
    Merge(cmp, a, b[..Min(qsize, |b|)])
  }

  /** From b, all but the first taken elements are left. */
  predicate Left(b: seq<Item>, taken: int, rest: seq<Item>) {
    0 <= taken <= |b| && rest == b[taken..]
  }

  lemma LeftStep(b: seq<Item>, taken: int, rest: seq<Item>)
    requires Left(b, taken, rest)
    ensures rest != [] ==> Left(b, taken + 1, rest[1..])
  {
  }

  lemma LeftEnd(b: seq<Item>, insize: nat, qsize: nat, rest: seq<Item>)
    requires Left(b, insize - qsize, rest) && (qsize == 0 || rest == [])
    ensures rest == b[Min(insize, |b|)..]
  {
  }

  /** One element is chosen from the two runs, as the if-chain of HASH_SRT does, and removed from its run. */
  method Choose(p: Item?, psize: nat, q: Item?, qsize: nat, cmp: Cmp<Item>, ghost a: seq<Item>, ghost b: seq<Item>)
      returns (e: Item, p': Item?, psize': nat, q': Item?, qsize': nat, ghost a': seq<Item>, ghost b': seq<Item>)
    requires RunOk(a, p) && RestOk(b, q) && |a| == psize
    requires psize > 0 || (qsize > 0 && q != null)
    ensures RunOk(a', p') && RestOk(b', q') && |a'| == psize'
    ensures (a != [] && a == [e] + a' && b' == b && qsize' == qsize)
            || (b != [] && b == [e] + b' && a' == a && qsize' == qsize - 1 && qsize > 0)
    ensures Pending(cmp, a, b, qsize) == [e] + Pending(cmp, a', b', qsize')
  {
    p', psize', q', qsize', a', b' := p, psize, q, qsize, a, b;
    if psize > 0 {
      RunTail(a, p);
      TakeFirst(a);
    }
    if q != null {
      RestTail(b, q);
      TakeFirst(b);
    }
    ghost var c := b[..Min(qsize, |b|)];
    if psize == 0 {
      e := q;
      q', qsize', b' := q.next, qsize - 1, b[1..];
      assert c == [e] + b'[..Min(qsize', |b'|)];
    } else if qsize == 0 || q == null {
      e := p;
      p', psize', a' := p.next, psize - 1, a[1..];
      assert c == [];
    } else if cmp(p, q) <= 0 {
      e := p;
      p', psize', a' := p.next, psize - 1, a[1..];
      assert c != [] && c[0] == q;
    } else {
      e := q;
      q', qsize', b' := q.next, qsize - 1, b[1..];
      assert c[0] == q && c[1..] == b'[..Min(qsize', |b'|)];
    }
  }

  /** The body of the inner loop: one element goes to the output. */
  method MergeOne(p: Item?, psize: nat, q: Item?, qsize: nat, list: Item?, tale: Item?, cmp: Cmp<Item>,
                  ghost o: seq<Item>, ghost a: seq<Item>, ghost b: seq<Item>)
      returns (list': Item?, tale': Item?, p': Item?, psize': nat, q': Item?, qsize': nat,
               ghost o': seq<Item>, ghost a': seq<Item>, ghost b': seq<Item>)
    requires OutOk(o, list, tale) && RunOk(a, p) && RestOk(b, q) && |a| == psize && Apart(o, a, b)
    requires psize > 0 || (qsize > 0 && q != null)
    modifies (SetOf(o) + SetOf(a) + SetOf(b))`prev, (SetOf(o) + SetOf(a) + SetOf(b))`next
    ensures OutOk(o', list', tale') && RunOk(a', p') && RestOk(b', q') && |a'| == psize' && Apart(o', a', b')
    ensures SetOf(o') + SetOf(a') + SetOf(b') <= SetOf(o) + SetOf(a) + SetOf(b) && |a'| + |b'| < |a| + |b|
    ensures (b' == b && qsize' == qsize) || (b != [] && b' == b[1..] && qsize' == qsize - 1)
    ensures o' + Pending(cmp, a', b', qsize') == o + Pending(cmp, a, b, qsize)
  {
    hide OutOk, RunOk, RestOk, NoDup, Pending;
    var e;
    e, p', psize', q', qsize', a', b' := Choose(p, psize, q, qsize, cmp, a, b);
    assert b == [e] + b' ==> b' == b[1..];
    Moved(o, a, b, e, a', b');
    list', tale' := Emit(e, list, tale, o);
    Regroup(o, e, Pending(cmp, a', b', qsize'));
    o' := o + [e];
  }

  /** The inner loop. */
  method MergeLoop(p: Item?, psize: nat, q: Item?, insize: nat, list: Item?, tale: Item?, cmp: Cmp<Item>,
                   ghost o: seq<Item>, ghost a: seq<Item>, ghost b: seq<Item>)
      returns (list': Item?, tale': Item?, q': Item?, ghost rest: seq<Item>, ghost taken: int)
    requires OutOk(o, list, tale) && RunOk(a, p) && RestOk(b, q) && |a| == psize && Apart(o, a, b)
    modifies (SetOf(o) + SetOf(a) + SetOf(b))`prev, (SetOf(o) + SetOf(a) + SetOf(b))`next
    ensures OutOk(o + Pending(cmp, a, b, insize), list', tale') && RestOk(rest, q')
    ensures taken <= insize && Left(b, taken, rest) && (taken == insize || rest == [])
  {
    LeftAll(b);
    hide OutOk, RunOk, RestOk, NoDup, Left, Pending, Apart, SetOf;
    var p', psize', qsize := p, psize, insize;
    list', tale', q' := list, tale, q;
    ghost var o', a', b' := o, a, b;
    RestEmpty(b, q);
    while psize' > 0 || (qsize > 0 && q' != null)
      invariant OutOk(o', list', tale') && RunOk(a', p') && RestOk(b', q') && |a'| == psize'
      invariant Apart(o', a', b') && SetOf(o') + SetOf(a') + SetOf(b') <= SetOf(o) + SetOf(a) + SetOf(b)
      invariant 0 <= qsize <= insize && Left(b, insize - qsize, b')
      invariant o' + Pending(cmp, a', b', qsize) == o + Pending(cmp, a, b, insize)
      invariant q' == null <==> b' == []
      decreases |a'| + |b'|
    {
      LeftStep(b, insize - qsize, b');
      list', tale', p', psize', q', qsize, o', a', b' := MergeOne(p', psize', q', qsize, list', tale', cmp, o', a', b');
      RestEmpty(b', q');
    }
    NothingPending(cmp, o', a', b', qsize);
    rest, taken := b', insize - qsize;
  }

  lemma LeftAll(b: seq<Item>)
    ensures Left(b, 0, b)
  {
  }

  /** The run of psize elements at p and the next run at q are merged behind the output. */
  method MergeTwo(p: Item?, psize: nat, q: Item?, insize: nat, list: Item?, tale: Item?, cmp: Cmp<Item>,
                  ghost o: seq<Item>, ghost a: seq<Item>, ghost b: seq<Item>)
      returns (list': Item?, tale': Item?, q': Item?)
    requires OutOk(o, list, tale) && RunOk(a, p) && RestOk(b, q) && |a| == psize && NoDup(o + a + b)
    modifies SetOf(o + a + b)`prev, SetOf(o + a + b)`next
    ensures var m := Min(insize, |b|);
            OutOk(o + Merge(cmp, a, b[..m]), list', tale') && RestOk(b[m..], q')
  {
    hide OutOk, RunOk, RestOk, NoDup, Merge;
    Parts(o, a, b);
    ghost var rest, taken;
    list', tale', q', rest, taken := MergeLoop(p, psize, q, insize, list, tale, cmp, o, a, b);
    LeftEnd(b, insize, insize - taken, rest);
  }

  lemma Regroup(o: seq<Item>, e: Item, m: seq<Item>)
    ensures o + ([e] + m) == (o + [e]) + m
  {
  }

  lemma NothingPending(cmp: Cmp<Item>, o: seq<Item>, a: seq<Item>, b: seq<Item>, qsize: nat)
    requires a == [] && (b == [] || qsize == 0)
    ensures o + Pending(cmp, a, b, qsize) == o
  {
  }

  lemma RestEmpty(b: seq<Item>, q: Item?)
    requires RestOk(b, q)
    ensures q == null <==> b == []
  {
  }

  /** No element occurs twice in or across the three lists. */
  ghost predicate Apart(o: seq<Item>, a: seq<Item>, b: seq<Item>) {
    && NoDup(o) && NoDup(a) && NoDup(b)
    && SetOf(o) !! SetOf(a) && SetOf(o) !! SetOf(b) && SetOf(a) !! SetOf(b)
  }

  lemma Parts(o: seq<Item>, a: seq<Item>, b: seq<Item>)
    requires NoDup(o + a + b)
    ensures Apart(o, a, b) && SetOf(o) + SetOf(a) + SetOf(b) <= SetOf(o + a + b)
  {
    var all := o + a + b;
    assert forall i | 0 <= i < |o| :: o[i] == all[i];
    assert forall i | 0 <= i < |a| :: a[i] == all[|o| + i];
    assert forall i | 0 <= i < |b| :: b[i] == all[|o| + |a| + i];
  }

  /** Moving the first element of a run to the output keeps the lists apart. */
  lemma Moved(o: seq<Item>, a: seq<Item>, b: seq<Item>, e: Item, a': seq<Item>, b': seq<Item>)
    requires Apart(o, a, b)
    requires (a == [e] + a' && b' == b) || (b == [e] + b' && a' == a)
    ensures e !in o && Apart(o + [e], a', b')
    ensures SetOf(o + [e]) + SetOf(a') + SetOf(b') <= SetOf(o) + SetOf(a) + SetOf(b)
    ensures e !in a' && e !in b'
  {
    if a == [e] + a' {
      assert a[0] == e && forall i | 0 <= i < |a'| :: a'[i] == a[i + 1];
    } else {
      assert b[0] == e && forall i | 0 <= i < |b'| :: b'[i] == b[i + 1];
    }
  }

  lemma EmptyOut()
    ensures OutOk([], null, null)
  {
  }

  lemma PassStep(cmp: Cmp<Item>, rest: seq<Item>, k: nat, a: seq<Item>, b: seq<Item>, t: seq<Item>)
    requires k > 0 && rest != [] && rest == a + b + t
    requires |a| == Min(k, |rest|) && |b| == Min(k, |rest| - |a|)
    ensures Pass(cmp, rest, k) == Merge(cmp, a, b) + Pass(cmp, t, k)
  {
    hide Merge;
    assert rest[..|a|] == a && rest[|a|..|a| + |b|] == b && rest[|a| + |b|..] == t;
  }

  lemma {:induction false} DistinctCounts(s: seq<Item>)
    ensures NoDup(s) <==> forall x | x in s :: multiset(s)[x] == 1
  {
    if s != [] {
      var n := |s| - 1;
      DistinctCounts(s[..n]);
      assert s == s[..n] + [s[n]];
      assert multiset(s) == multiset(s[..n]) + multiset{s[n]};
      if NoDup(s) {
        assert s[n] !in s[..n];
        assert s[n] !in multiset(s[..n]);
      } else if forall x | x in s :: multiset(s)[x] == 1 {
        assert s[n] in s;
        assert s[n] !in multiset(s[..n]);
        assert s[n] !in s[..n];
        forall x | x in s[..n]
          ensures multiset(s[..n])[x] == 1
        {
          assert x in s;
        }
      }
    }
  }

  lemma DistinctPermutation(s: seq<Item>, t: seq<Item>)
    requires NoDup(s) && multiset(s) == multiset(t)
    ensures NoDup(t) && SetOf(s) == SetOf(t)
  {
    DistinctCounts(s);
    DistinctCounts(t);
    SameMembers(s, t);
  }

  /** After a merge the output and the rest of the input still share no element. */
  lemma KeepApart(cmp: Cmp<Item>, o: seq<Item>, rest: seq<Item>, a: seq<Item>, b: seq<Item>, t: seq<Item>)
    requires NoDup(o + rest) && rest == a + b + t
    ensures NoDup((o + Merge(cmp, a, b)) + t) && SetOf((o + Merge(cmp, a, b)) + t) == SetOf(o + rest)
  {
    hide NoDup, SetOf, Merge;
    MergePermutes(cmp, a, b);
    assert multiset(o + (a + b + t)) == multiset(o) + multiset(a) + multiset(b) + multiset(t);
    assert multiset((o + Merge(cmp, a, b)) + t) == multiset(o) + (multiset(a) + multiset(b)) + multiset(t);
    DistinctPermutation(o + rest, (o + Merge(cmp, a, b)) + t);
  }

  /** The loop that measures the first run: it steps q over at most insize elements. */
  method TakeRun(p: Item, insize: nat, ghost s: seq<Item>, list: Item?, tale: Item?, ghost o: seq<Item>)
      returns (psize: nat, q: Item?)
    requires RestOk(s, p) && insize > 0 && OutOk(o, list, tale)
    ensures OutOk(o, list, tale)
    ensures psize == Min(insize, |s|)
    ensures RunOk(s[..psize], p) && RestOk(s[psize..], q)
  {
    q, psize := p, 0;
    var i := 0;
    while i < insize
      invariant 0 <= i <= insize && i == psize < |s| + 1
      invariant i < insize ==> psize < |s|
      invariant q == ItemAt(s, psize)
    {
      psize := psize + 1;
      q := q.next;
      if q == null {
        break;
      }
      i := i + 1;
    }
    assert forall j {:trigger s[..psize][j].next} | 0 <= j < psize - 1 :: s[..psize][j].next == s[j].next;
    assert forall j {:trigger s[psize..][j].next} | 0 <= j < |s| - psize :: s[psize..][j].next == s[psize + j].next;
  }

  /** The body of the round: the next two runs are measured and merged behind the output. */
  method MergePair(p: Item, insize: nat, list: Item?, tale: Item?, cmp: Cmp<Item>, ghost o: seq<Item>, ghost rest: seq<Item>)
      returns (list': Item?, tale': Item?, q: Item?, ghost o': seq<Item>, ghost rest': seq<Item>)
    requires OutOk(o, list, tale) && RestOk(rest, p) && rest != [] && insize > 0 && NoDup(o + rest)
    modifies SetOf(o + rest)`prev, SetOf(o + rest)`next
    ensures OutOk(o', list', tale') && RestOk(rest', q) && NoDup(o' + rest')
    ensures SetOf(o' + rest') == SetOf(o + rest)
    ensures |o'| == |o| + Min(2 * insize, |rest|) && |o'| + |rest'| == |o| + |rest|
    ensures o' + Pass(cmp, rest', insize) == o + Pass(cmp, rest, insize)
  {
    hide OutOk, RestOk, RunOk, NoDup, Pass, Merge;
    var psize, run := TakeRun(p, insize, rest, list, tale, o);
    ghost var a, b, m := MergedPair(cmp, o, rest, insize);
    list', tale', q := MergeTwo(p, psize, run, insize, list, tale, cmp, o, a, b);
    o', rest' := o + Merge(cmp, a, b[..m]), b[m..];
  }

  /** The parts of the input one pair of runs is made of, and what merging them does to the lists. */
  lemma MergedPair(cmp: Cmp<Item>, o: seq<Item>, rest: seq<Item>, k: nat) returns (a: seq<Item>, b: seq<Item>, m: nat)
    requires k > 0 && rest != [] && NoDup(o + rest)
    ensures a == rest[..Min(k, |rest|)] && b == rest[|a|..] && m == Min(k, |b|)
    ensures o + a + b == o + rest && |Merge(cmp, a, b[..m])| == Min(2 * k, |rest|)
    ensures NoDup((o + Merge(cmp, a, b[..m])) + b[m..])
    ensures SetOf((o + Merge(cmp, a, b[..m])) + b[m..]) == SetOf(o + rest)
    ensures (o + Merge(cmp, a, b[..m])) + Pass(cmp, b[m..], k) == o + Pass(cmp, rest, k)
  {
    hide NoDup, Pass, Merge, SetOf;
    a, b := rest[..Min(k, |rest|)], rest[Min(k, |rest|)..];
    m := Min(k, |b|);
    assert b == b[..m] + b[m..] && rest == a + b;
    assert rest == a + b[..m] + b[m..];
    assert o + a + b == o + rest;
    PassStep(cmp, rest, k, a, b[..m], b[m..]);
    KeepApart(cmp, o, rest, a, b[..m], b[m..]);
    RegroupSeq(o, Merge(cmp, a, b[..m]), Pass(cmp, b[m..], k));
  }

  lemma RegroupSeq(a: seq<Item>, b: seq<Item>, c: seq<Item>)
    ensures a + (b + c) == (a + b) + c
  {
  }

  /** One round of the outer loop: all runs of length insize are merged pairwise. */
  method OneRound(list: Item, insize: nat, cmp: Cmp<Item>, ghost s: seq<Item>)
      returns (list': Item, tale: Item, nmerges: nat)
    requires RestOk(s, list) && NoDup(s) && insize > 0
    modifies SetOf(s)`prev, SetOf(s)`next
    ensures var r := Pass(cmp, s, insize);
            r != [] && AppOk(r, list') && list' == r[0] && tale == r[|r| - 1]
    ensures nmerges <= 1 <==> |s| <= 2 * insize
  {
    hide OutOk, RestOk, NoDup, Pass, AppOk;
    var p: Item? := list;
    var l: Item?, t: Item? := null, null;
    nmerges := 0;
    ghost var o: seq<Item>, rest := [], s;
    RestEmpty(s, list);
    EmptyOut();
    assert [] + s == s;
    assert [] + Pass(cmp, s, insize) == Pass(cmp, s, insize);
    while p != null
      invariant OutOk(o, l, t) && RestOk(rest, p) && NoDup(o + rest) && SetOf(o + rest) == SetOf(s)
      invariant p == null <==> rest == []
      invariant o + Pass(cmp, rest, insize) == Pass(cmp, s, insize)
      invariant |o| + |rest| == |s|
      invariant nmerges == 0 <==> rest == s
      invariant nmerges == 0 ==> o == []
      invariant nmerges == 1 ==> |o| == Min(2 * insize, |s|)
      invariant nmerges > 1 ==> |s| > 2 * insize
      decreases |rest|
    {
      nmerges := nmerges + 1;
      l, t, p, o, rest := MergePair(p, insize, l, t, cmp, o, rest);
      RestEmpty(rest, p);
    }
    assert o + rest == o;
    PassNothing(cmp, o, insize);
    EndList(l, t, o);
    list', tale := l, t;
  }

  lemma PassNothing(cmp: Cmp<Item>, o: seq<Item>, k: nat)
    requires k > 0
    ensures o + Pass(cmp, [], k) == o
  {
  }

  /** The last element of the output gets its null link. */
  method EndList(list: Item?, tale: Item?, ghost o: seq<Item>)
    requires OutOk(o, list, tale) && o != [] && NoDup(o)
    modifies SetOf(o)`next
    ensures AppOk(o, list) && list == o[0] && tale == o[|o| - 1]
  {
    tale.next := null;
    forall i | 0 <= i < |o|
      ensures o[i].prev == ItemAt(o, i - 1) && o[i].next == ItemAt(o, i + 1)
    {
      assert old(o[i].prev) == ItemAt(o, i - 1);
      if i < |o| - 1 {
        assert old(o[i].next) == ItemAt(o, i + 1);
      }
    }
  }

  /** An application-order list can be read from its head on. */
  lemma AppIsRest(s: seq<Item>, head: Item?)
    requires AppOk(s, head)
    ensures RestOk(s, head)
  {
  }

  lemma PassKeeps(cmp: Cmp<Item>, s: seq<Item>, k: nat)
    requires k > 0 && NoDup(s)
    ensures NoDup(Pass(cmp, s, k)) && SetOf(Pass(cmp, s, k)) == SetOf(s)
  {
    PassPermutes(cmp, s, k);
    DistinctPermutation(s, Pass(cmp, s, k));
  }

  /** What is left of the sort behind one round. */
  lemma RoundLeft(cmp: Cmp<Item>, s: seq<Item>, k: nat)
    requires k > 0
    ensures SortFrom(cmp, s, k) == if |s| <= 2 * k then Pass(cmp, s, k) else SortFrom(cmp, Pass(cmp, s, k), 2 * k)
  {
    hide Pass;
  }

  /** The outer loop. */
  method SrtLoop(head: Item, cmp: Cmp<Item>, ghost s: seq<Item>) returns (list: Item, tail: Item)
    requires AppOk(s, head) && NoDup(s) && s != []
    modifies SetOf(s)`prev, SetOf(s)`next
    ensures var r := Sort(cmp, s);
            r != [] && AppOk(r, list) && list == r[0] && tail == r[|r| - 1]
  {
    hide Pass, AppOk, NoDup, SortFrom;
    var insize, looping := 1, true;
    list, tail := head, head;
    ghost var cur := s;
    while looping
      invariant insize > 0 && |cur| == |s| && NoDup(cur) && SetOf(cur) == SetOf(s)
      invariant AppOk(cur, list) && cur != []
      invariant looping ==> SortFrom(cmp, cur, insize) == Sort(cmp, s)
      invariant !looping ==> cur == Sort(cmp, s) && list == cur[0] && tail == cur[|cur| - 1]
      decreases looping, |s| - insize
    {
      var nmerges, tale;
      AppIsRest(cur, list);
      list, tale, nmerges := OneRound(list, insize, cmp, cur);
      PassKeeps(cmp, cur, insize);
      RoundLeft(cmp, cur, insize);
      cur := Pass(cmp, cur, insize);
      if nmerges <= 1 {
        looping := false;
        tail := tale;
      }
      insize := insize * 2;
    }
  }

  /** Sorting permutes the items, so keys, hash values and slots are as before. */
  lemma SortKeeps(cmp: Cmp<Item>, s: seq<Item>)
    requires s != [] && DistinctKeys(s)
    ensures var r := Sort(cmp, s);
            && DistinctKeys(r) && SetOf(r) == SetOf(s) && MapOf(r) == MapOf(s) && |r| == |s|
            && (forall x | x in s :: x in r) && (forall x | x in r :: x in s)
  {
    var r := Sort(cmp, s);
    SortFromPermutes(cmp, s, 1);
    KeysDistinctItems(s);
    DistinctPermutation(s, r);
    SameMembers(s, r);
    forall i, j | 0 <= i < j < |r|
      ensures r[i].key != r[j].key
    {
      assert r[i] in s && r[j] in s && r[i] != r[j];
    }
    MapOfSameItems(s, r);
  }

  /** The bucket side of the table does not depend on the application order. */
  lemma ChainsReordered(t: Table, s: seq<Item>, r: seq<Item>)
    requires t.ChainsOk(s) && |r| == |s|
    requires (forall x | x in s :: x in r) && (forall x | x in r :: x in s)
    ensures t.ChainsOk(r)
  {
    hide SlotOf, Linked, TotalExcess, NoDup;
  }

  /** What the sort does to a sequence; nothing is there to sort in an empty one. */
  lemma SortOf(cmp: Cmp<Item>, s: seq<Item>)
    ensures multiset(Sort(cmp, s)) == multiset(s) && (s == [] ==> Sort(cmp, s) == [])
    ensures Preorder(cmp, s) ==> Sorted(cmp, Sort(cmp, s)) && forall x | x in s :: Class(cmp, Sort(cmp, s), x) == Class(cmp, s, x)
  {
    SortFromPermutes(cmp, s, 1);
    if Preorder(cmp, s) {
      SortCorrect(cmp, s);
    }
  }

  /**
   * HASH_SRT ends for every list, sorts the items stably if the comparison is a preorder, leaves
   * head and tail at the two ends of the new application order, and touches no bucket chain and no lookup.
   */
  method Srt(h: HashHead, cmp: Cmp<Item>)
    requires h.Valid()
    modifies h`head, h`items, SetOf(h.items)`prev, SetOf(h.items)`next
    modifies (if h.tbl == null then {} else {h.tbl})`tail
    ensures h.Valid() && h.tbl == old(h.tbl)
    ensures h.items == Sort(cmp, old(h.items)) && multiset(h.items) == multiset(old(h.items))
    ensures Preorder(cmp, old(h.items)) ==>
              && Sorted(cmp, h.items)
              && forall x | x in old(h.items) :: Class(cmp, h.items, x) == Class(cmp, old(h.items), x)
    ensures h.Contents() == old(h.Contents())
    ensures h.tbl != null ==> h.tbl.chains == old(h.tbl.chains) && h.tbl.buckets[..] == old(h.tbl.buckets[..])
  {
    hide MapOf, Stored, Sort, Sorted, Preorder, Class;
    if h.items != [] {
      StoredParts(h.tbl, h.head, h.items);
      HeadOfList(h.items, h.head);
    }
    SortOf(cmp, h.items);
    if h.head != null {
      SrtList(h, h.head, cmp);
    }
  }

  method SrtList(h: HashHead, head: Item, cmp: Cmp<Item>)
    requires h.Valid() && h.head == head && h.items != []
    modifies h`head, h`items, SetOf(h.items)`prev, SetOf(h.items)`next, h.tbl`tail
    ensures h.Valid() && h.tbl == old(h.tbl)
    ensures h.items == Sort(cmp, old(h.items))
    ensures h.Contents() == old(h.Contents())
    ensures h.tbl.chains == old(h.tbl.chains) && h.tbl.buckets[..] == old(h.tbl.buckets[..])
  {
    hide Sort, MapOf, AppOk, DistinctKeys, HashesOk, Table.ChainsOk, Stored;
    StoredParts(h.tbl, h.head, h.items);
    ghost var s, r := h.items, Sort(cmp, h.items);
    KeysDistinctItems(s);
    SortKeeps(cmp, s);
    var list, tail := SrtLoop(head, cmp, s);
    ChainsReordered(h.tbl, s, r);
    HashesReordered(s, r, h.hash);
    SetEnds(h, list, tail, r);
  }

  /** The end of HASH_SRT: head and tail move to the ends of the new application order. */
  method SetEnds(h: HashHead, list: Item, tail: Item, ghost r: seq<Item>)
    requires h.tbl != null && h.tbl.hash == h.hash && h.tbl.numItems == |r| && h.tbl.ChainsOk(r)
    requires r != [] && AppOk(r, list) && tail == r[|r| - 1] && DistinctKeys(r) && HashesOk(r, h.hash)
    modifies h`head, h`items, h.tbl`tail
    ensures h.Valid() && h.items == r
  {
    hide AppOk, DistinctKeys, HashesOk, Table.ChainsOk, Stored;
    h.tbl.tail := tail;
    h.head := list;
    h.items := r;
    MakeStored(h.tbl, h.head, r);
  }

  lemma HashesReordered(s: seq<Item>, r: seq<Item>, hash: Hash)
    requires HashesOk(s, hash) && forall x | x in r :: x in s
    ensures HashesOk(r, hash)
  {
  }
}
