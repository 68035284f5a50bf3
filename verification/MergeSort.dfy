/**
 * The bottom-up merge sort of HASH_SRT as a function on sequences (src/uthash.h:458-533), and what
 * it does for every comparison that is a total preorder: it sorts, and it is stable.
 */
module MergeSort {

  type Cmp<!T> = (T, T) -> int

  predicate Le<T>(cmp: Cmp<T>, x: T, y: T) {
    cmp(x, y) <= 0
  }

  /** On the elements of s, cmp(x, y) <= 0 is a total preorder. */
  ghost predicate Preorder<T>(cmp: Cmp<T>, s: seq<T>) {
    && (forall x, y | x in s && y in s :: Le(cmp, x, y) || Le(cmp, y, x))
    && (forall x, y, z | x in s && y in s && z in s && Le(cmp, x, y) && Le(cmp, y, z) :: Le(cmp, x, z))
  }

  ghost predicate Sorted<T>(cmp: Cmp<T>, s: seq<T>) {
    forall i, j | 0 <= i < j < |s| :: Le(cmp, s[i], s[j])
  }

  /** The elements of s that compare equal to x, in order. */
  function Class<T>(cmp: Cmp<T>, s: seq<T>, x: T): seq<T> {
    if s == [] then []
    else (if Le(cmp, x, s[0]) && Le(cmp, s[0], x) then [s[0]] else []) + Class(cmp, s[1..], x)
  }

  /** The inner loop: two runs are merged, and the first one wins ties. */
  function Merge<T>(cmp: Cmp<T>, a: seq<T>, b: seq<T>): (r: seq<T>)
    ensures |r| == |a| + |b|
  {
    if a == [] then b
    else if b == [] then a
    else if cmp(a[0], b[0]) <= 0 then [a[0]] + Merge(cmp, a[1..], b)
    else [b[0]] + Merge(cmp, a, b[1..])
  }

  function Min(a: nat, b: nat): nat {
    if a <= b then a else b
  }

  /** One round: neighbouring runs of length k are merged pairwise. */
  function Pass<T>(cmp: Cmp<T>, s: seq<T>, k: nat): (r: seq<T>)
    requires k > 0
    ensures |r| == |s|
  {
    if s == [] then []
    else
      var p := Min(k, |s|);
      var q := Min(k, |s| - p);
      Merge(cmp, s[..p], s[p..p + q]) + Pass(cmp, s[p + q..], k)
  }

  /** The outer loop from run length k on: it stops after the first round with a single merge. */
  function SortFrom<T>(cmp: Cmp<T>, s: seq<T>, k: nat): (r: seq<T>)
    requires k > 0
    ensures |r| == |s|
    decreases |s| - k
  {
    if |s| <= 2 * k then Pass(cmp, s, k) else SortFrom(cmp, Pass(cmp, s, k), 2 * k)
  }

  /** HASH_SRT on the application order. */
  function Sort<T>(cmp: Cmp<T>, s: seq<T>): seq<T> {
    if s == [] then [] else SortFrom(cmp, s, 1)
  }

  // ---- permutation ----

  lemma HeadAndRest<T>(s: seq<T>)
    requires s != []
    ensures multiset(s) == multiset{s[0]} + multiset(s[1..])
  {
    assert s == [s[0]] + s[1..];
  }

  lemma Pushed<T>(x: T, s: seq<T>)
    ensures multiset([x] + s) == multiset{x} + multiset(s)
  {
  }

  /** One step of the merge. */
  lemma MergeStep<T>(cmp: Cmp<T>, a: seq<T>, b: seq<T>)
    ensures a == [] ==> Merge(cmp, a, b) == b
    ensures b == [] ==> Merge(cmp, a, b) == a
    ensures a != [] && b != [] ==>
              Merge(cmp, a, b) == if cmp(a[0], b[0]) <= 0 then [a[0]] + Merge(cmp, a[1..], b) else [b[0]] + Merge(cmp, a, b[1..])
  {
  }

  lemma {:induction false} MergePermutes<T>(cmp: Cmp<T>, a: seq<T>, b: seq<T>)
    ensures multiset(Merge(cmp, a, b)) == multiset(a) + multiset(b)
  {
    hide Merge;
    MergeStep(cmp, a, b);
    if a != [] && b != [] {
      if cmp(a[0], b[0]) <= 0 {
        MergePermutes(cmp, a[1..], b);
        HeadAndRest(a);
        Pushed(a[0], Merge(cmp, a[1..], b));
      } else {
        MergePermutes(cmp, a, b[1..]);
        HeadAndRest(b);
        Pushed(b[0], Merge(cmp, a, b[1..]));
      }
    }
  }

  lemma {:induction false} PassPermutes<T>(cmp: Cmp<T>, s: seq<T>, k: nat)
    requires k > 0
    ensures multiset(Pass(cmp, s, k)) == multiset(s)
    decreases |s|
  {
    hide Merge;
    if s != [] {
      var p := Min(k, |s|);
      var q := Min(k, |s| - p);
      var a, b, t := s[..p], s[p..p + q], s[p + q..];
      MergePermutes(cmp, a, b);
      PassPermutes(cmp, t, k);
      assert s == a + b + t;
      assert multiset(Merge(cmp, a, b) + Pass(cmp, t, k)) == multiset(Merge(cmp, a, b)) + multiset(Pass(cmp, t, k));
    }
  }

  lemma SameMembers<T>(s: seq<T>, t: seq<T>)
    requires multiset(s) == multiset(t)
    ensures forall x | x in s :: x in t
    ensures forall x | x in t :: x in s
  {
    forall x | x in s
      ensures x in t
    {
      assert x in multiset(s);
    }
    forall x | x in t
      ensures x in s
    {
      assert x in multiset(t);
    }
  }

  lemma PreorderOn<T>(cmp: Cmp<T>, s: seq<T>, t: seq<T>)
    requires Preorder(cmp, s) && forall x | x in t :: x in s
    ensures Preorder(cmp, t)
  {
  }

  // ---- sortedness and stability of one merge ----

  lemma SortedTail<T>(cmp: Cmp<T>, s: seq<T>)
    requires Sorted(cmp, s) && s != []
    ensures Sorted(cmp, s[1..]) && forall y | y in s[1..] :: Le(cmp, s[0], y)
  {
  }

  lemma SortedCons<T>(cmp: Cmp<T>, x: T, s: seq<T>)
    requires Sorted(cmp, s) && forall y | y in s :: Le(cmp, x, y)
    ensures Sorted(cmp, [x] + s)
  {
  }

  lemma {:induction false} MergeSorted<T>(cmp: Cmp<T>, a: seq<T>, b: seq<T>)
    requires Preorder(cmp, a + b) && Sorted(cmp, a) && Sorted(cmp, b)
    ensures Sorted(cmp, Merge(cmp, a, b))
    decreases |a| + |b|
  {
    if a != [] && b != [] {
      var x, a', b' := SmallerHead(cmp, a, b);
      PreorderOn(cmp, a + b, a' + b');
      MergeSorted(cmp, a', b');
      MergePermutes(cmp, a', b');
      MergeMembers(cmp, a', b');
      SortedCons(cmp, x, Merge(cmp, a', b'));
    }
  }

  lemma MergeMembers<T>(cmp: Cmp<T>, a: seq<T>, b: seq<T>)
    ensures forall x | x in Merge(cmp, a, b) :: x in a || x in b
  {
    MergePermutes(cmp, a, b);
    forall x | x in Merge(cmp, a, b)
      ensures x in a || x in b
    {
      assert x in multiset(Merge(cmp, a, b));
    }
  }

  lemma Total<T>(cmp: Cmp<T>, x: T, y: T, all: seq<T>)
    requires Preorder(cmp, all) && x in all && y in all && !Le(cmp, x, y)
    ensures Le(cmp, y, x)
  {
  }

  lemma Transitive<T>(cmp: Cmp<T>, x: T, y: T, z: T, all: seq<T>)
    requires Preorder(cmp, all) && x in all && y in all && z in all && Le(cmp, x, y) && Le(cmp, y, z)
    ensures Le(cmp, x, z)
  {
  }

  /** An element below the head of a sorted run is below the whole run. */
  lemma LeAll<T>(cmp: Cmp<T>, x: T, h: T, s: seq<T>, all: seq<T>)
    requires Preorder(cmp, all) && Sorted(cmp, s) && s != [] && h == s[0] && Le(cmp, x, h)
    requires x in all && forall y | y in s :: y in all
    ensures forall y | y in s :: Le(cmp, x, y)
  {
    SortedTail(cmp, s);
    forall y | y in s
      ensures Le(cmp, x, y)
    {
      if y != h {
        assert y in s[1..];
        Transitive(cmp, x, h, y, all);
      }
    }
  }

  /** The element one step of the merge moves, and what is left of the two runs. */
  lemma SmallerHead<T>(cmp: Cmp<T>, a: seq<T>, b: seq<T>) returns (x: T, a': seq<T>, b': seq<T>)
    requires Preorder(cmp, a + b) && Sorted(cmp, a) && Sorted(cmp, b) && a != [] && b != []
    ensures Merge(cmp, a, b) == [x] + Merge(cmp, a', b')
    ensures Sorted(cmp, a') && Sorted(cmp, b') && |a'| + |b'| < |a| + |b|
    ensures x in a + b && forall y | y in a' + b' :: y in a + b && Le(cmp, x, y)
    ensures (x == a[0] && a' == a[1..] && b' == b)
            || (x == b[0] && a' == a && b' == b[1..] && forall y | y in a :: !Le(cmp, y, x))
  {
    hide Sorted, Preorder;
    SortedTail(cmp, a);
    SortedTail(cmp, b);
    if cmp(a[0], b[0]) <= 0 {
      x, a', b' := a[0], a[1..], b;
      LeAll(cmp, x, b[0], b, a + b);
    } else {
      x, a', b' := b[0], a, b[1..];
      Total(cmp, a[0], x, a + b);
      LeAll(cmp, x, a[0], a, a + b);
      forall y | y in a
        ensures !Le(cmp, y, x)
      {
        if Le(cmp, y, x) && y != a[0] {
          assert y in a[1..];
          Transitive(cmp, a[0], y, x, a + b);
        }
      }
    }
  }

  lemma {:induction false} ClassAppend<T>(cmp: Cmp<T>, s: seq<T>, t: seq<T>, x: T)
    ensures Class(cmp, s + t, x) == Class(cmp, s, x) + Class(cmp, t, x)
  {
    if s == [] {
      assert s + t == t;
    } else {
      assert (s + t)[1..] == s[1..] + t;
      ClassAppend(cmp, s[1..], t, x);
    }
  }

  lemma {:induction false} ClassEmpty<T>(cmp: Cmp<T>, s: seq<T>, x: T)
    requires forall y | y in s :: !(Le(cmp, x, y) && Le(cmp, y, x))
    ensures Class(cmp, s, x) == []
  {
    if s != [] {
      ClassEmpty(cmp, s[1..], x);
    }
  }

  lemma ClassOne<T>(cmp: Cmp<T>, h: T, x: T)
    ensures Class(cmp, [h], x) == if Le(cmp, x, h) && Le(cmp, h, x) then [h] else []
  {
  }

  lemma NoneEqual<T>(cmp: Cmp<T>, a: seq<T>, h: T, x: T, all: seq<T>)
    requires Preorder(cmp, all) && h in all && x in all && forall y | y in a :: y in all && !Le(cmp, y, h)
    requires Le(cmp, x, h)
    ensures forall y | y in a :: !Le(cmp, y, x)
  {
  }

  /** Merging sorted runs keeps equal elements in order, those of the first run in front. */
  lemma {:induction false} MergeStable<T>(cmp: Cmp<T>, a: seq<T>, b: seq<T>, x: T, all: seq<T>)
    requires Preorder(cmp, all) && x in all && (forall y | y in a + b :: y in all)
    requires Sorted(cmp, a) && Sorted(cmp, b)
    ensures Class(cmp, Merge(cmp, a, b), x) == Class(cmp, a, x) + Class(cmp, b, x)
    decreases |a| + |b|
  {
    hide Preorder, Sorted, Merge, Class;
    MergeStep(cmp, a, b);
    ClassEmpty(cmp, [], x);
    if a != [] && b != [] {
      PreorderOn(cmp, all, a + b);
      var h, a', b' := SmallerHead(cmp, a, b);
      ClassOne(cmp, h, x);
      MergeStable(cmp, a', b', x, all);
      ClassAppend(cmp, [h], Merge(cmp, a', b'), x);
      if b' == b {
        ClassAppend(cmp, [h], a', x);
        assert a == [h] + a';
      } else {
        ClassAppend(cmp, [h], b', x);
        assert b == [h] + b';
        if Le(cmp, x, h) && Le(cmp, h, x) {
          NoneEqual(cmp, a, h, x, all);
          ClassEmpty(cmp, a, x);
        }
      }
    }
  }

  // ---- rounds ----

  /** Every run of length k (and the shorter last one) is sorted. */
  ghost predicate Runs<T>(cmp: Cmp<T>, s: seq<T>, k: nat)
    requires k > 0
    decreases |s|
  {
    s == [] || (Sorted(cmp, s[..Min(k, |s|)]) && Runs(cmp, s[Min(k, |s|)..], k))
  }

  lemma {:induction false} SingleRuns<T>(cmp: Cmp<T>, s: seq<T>)
    ensures Runs(cmp, s, 1)
    decreases |s|
  {
    if s != [] {
      SingleRuns(cmp, s[1..]);
    }
  }

  lemma PassStep<T>(cmp: Cmp<T>, s: seq<T>, k: nat)
    requires k > 0 && s != []
    ensures var p := Min(k, |s|);
            var q := Min(k, |s| - p);
            Pass(cmp, s, k) == Merge(cmp, s[..p], s[p..p + q]) + Pass(cmp, s[p + q..], k)
  {
  }

  /** The parts of s one merge of a round works on. */
  lemma RoundParts<T>(cmp: Cmp<T>, s: seq<T>, k: nat) returns (a: seq<T>, b: seq<T>, t: seq<T>)
    requires k > 0 && s != [] && Runs(cmp, s, k) && Preorder(cmp, s)
    ensures a == s[..Min(k, |s|)] && b == s[|a|..|a| + Min(k, |s| - |a|)] && t == s[|a| + |b|..]
    ensures s == a + b + t && Pass(cmp, s, k) == Merge(cmp, a, b) + Pass(cmp, t, k)
    ensures Sorted(cmp, a) && Sorted(cmp, b) && Runs(cmp, t, k) && Preorder(cmp, a + b) && Preorder(cmp, t)
    ensures |a + b| == Min(2 * k, |s|)
  {
    hide Merge, Sorted, Preorder, Pass;
    a := s[..Min(k, |s|)];
    b := s[|a|..|a| + Min(k, |s| - |a|)];
    t := s[|a| + |b|..];
    PassStep(cmp, s, k);
    var r := s[|a|..];
    if r == [] {
      assert b == [] && t == [];
      assert Sorted(cmp, b) by {
        EmptySorted(cmp);
      }
    } else {
      assert r[..Min(k, |r|)] == b && r[Min(k, |r|)..] == t;
    }
    PreorderOn(cmp, s, a + b);
    PreorderOn(cmp, s, t);
  }

  lemma EmptySorted<T>(cmp: Cmp<T>)
    ensures Sorted(cmp, [])
  {
  }

  /** A round doubles the length of the sorted runs. */
  lemma {:induction false} PassRuns<T>(cmp: Cmp<T>, s: seq<T>, k: nat)
    requires k > 0 && Runs(cmp, s, k) && Preorder(cmp, s)
    ensures Runs(cmp, Pass(cmp, s, k), 2 * k)
    decreases |s|
  {
    hide Merge, Sorted, Preorder;
    if s != [] {
      var a, b, t := RoundParts(cmp, s, k);
      MergeSorted(cmp, a, b);
      PassRuns(cmp, t, k);
      var r := Pass(cmp, s, k);
      assert r[..Min(2 * k, |r|)] == Merge(cmp, a, b);
      assert r[Min(2 * k, |r|)..] == Pass(cmp, t, k);
    }
  }

  /** A round keeps equal elements in order. */
  lemma {:induction false} PassStable<T>(cmp: Cmp<T>, s: seq<T>, k: nat, x: T, all: seq<T>)
    requires k > 0 && Runs(cmp, s, k) && Preorder(cmp, all) && x in all && forall y | y in s :: y in all
    ensures Class(cmp, Pass(cmp, s, k), x) == Class(cmp, s, x)
    decreases |s|
  {
    hide Merge, Sorted, Preorder, Class;
    if s != [] {
      PreorderOn(cmp, all, s);
      var a, b, t := RoundParts(cmp, s, k);
      MergeStable(cmp, a, b, x, all);
      PassStable(cmp, t, k, x, all);
      ClassAppend(cmp, Merge(cmp, a, b), Pass(cmp, t, k), x);
      ClassAppend(cmp, a + b, t, x);
      ClassAppend(cmp, a, b, x);
    }
  }

  lemma {:induction false} SortFromCorrect<T>(cmp: Cmp<T>, s: seq<T>, k: nat)
    requires k > 0 && s != [] && Runs(cmp, s, k) && Preorder(cmp, s)
    ensures Sorted(cmp, SortFrom(cmp, s, k))
    ensures multiset(SortFrom(cmp, s, k)) == multiset(s)
    ensures forall x | x in s :: Class(cmp, SortFrom(cmp, s, k), x) == Class(cmp, s, x)
    decreases |s| - k
  {
    hide Merge, Sorted, Preorder, Class, Pass;
    var r := Pass(cmp, s, k);
    PassRuns(cmp, s, k);
    PassPermutes(cmp, s, k);
    SameMembers(s, r);
    forall x | x in s
      ensures Class(cmp, r, x) == Class(cmp, s, x)
    {
      PassStable(cmp, s, k, x, s);
    }
    if |s| <= 2 * k {
      assert r[..Min(2 * k, |r|)] == r;
    } else {
      PreorderOn(cmp, s, r);
      SortFromCorrect(cmp, r, 2 * k);
    }
  }

  /** For a total preorder the result is sorted, a permutation, and stable. */
  lemma SortCorrect<T>(cmp: Cmp<T>, s: seq<T>)
    requires Preorder(cmp, s)
    ensures Sorted(cmp, Sort(cmp, s))
    ensures multiset(Sort(cmp, s)) == multiset(s)
    ensures forall x | x in s :: Class(cmp, Sort(cmp, s), x) == Class(cmp, s, x)
  {
    hide SortFrom, Class;
    if s != [] {
      SingleRuns(cmp, s);
      SortFromCorrect(cmp, s, 1);
    }
  }

  /** Whatever the comparison returns, sorting permutes. */
  lemma {:induction false} SortFromPermutes<T>(cmp: Cmp<T>, s: seq<T>, k: nat)
    requires k > 0
    ensures multiset(SortFrom(cmp, s, k)) == multiset(s)
    decreases |s| - k
  {
    PassPermutes(cmp, s, k);
    if |s| > 2 * k {
      SortFromPermutes(cmp, Pass(cmp, s, k), 2 * k);
    }
  }

  /** Sortedness and stability leave only one result. */
  lemma {:induction false} StableSortUnique<T>(cmp: Cmp<T>, s: seq<T>, r: seq<T>, all: seq<T>)
    requires Preorder(cmp, all) && (forall x | x in s :: x in all) && multiset(r) == multiset(s)
    requires Sorted(cmp, r) && Sorted(cmp, s)
    requires forall x | x in all :: Class(cmp, r, x) == Class(cmp, s, x)
    ensures r == s
  {
    if s != [] && r != [] {
      SameMembers(r, s);
      var x := s[0];
      HeadsEquivalent(cmp, s, r, all);
      assert Class(cmp, s, x)[0] == x && Class(cmp, r, x)[0] == r[0];
      SameTails(cmp, s, r, all);
      StableSortUnique(cmp, s[1..], r[1..], all);
      assert s == [x] + s[1..] && r == [x] + r[1..];
    } else {
      assert |multiset(r)| == |multiset(s)|;
    }
  }

  /** Sequences with the same head and the same classes have tails with the same classes. */
  lemma SameTails<T>(cmp: Cmp<T>, s: seq<T>, r: seq<T>, all: seq<T>)
    requires s != [] && r != [] && s[0] == r[0] && multiset(r) == multiset(s)
    requires forall x | x in all :: Class(cmp, r, x) == Class(cmp, s, x)
    ensures multiset(r[1..]) == multiset(s[1..])
    ensures forall x | x in all :: Class(cmp, r[1..], x) == Class(cmp, s[1..], x)
  {
    var x := s[0];
    HeadAndRest(s);
    HeadAndRest(r);
    assert multiset(s[1..]) == multiset(s) - multiset{x} && multiset(r[1..]) == multiset(r) - multiset{x};
    assert s == [x] + s[1..] && r == [x] + r[1..];
    forall y | y in all
      ensures Class(cmp, r[1..], y) == Class(cmp, s[1..], y)
    {
      ClassAppend(cmp, [x], s[1..], y);
      ClassAppend(cmp, [x], r[1..], y);
      Cancel(Class(cmp, [x], y), Class(cmp, s[1..], y), Class(cmp, r[1..], y));
    }
  }

  lemma Cancel<T>(c: seq<T>, a: seq<T>, b: seq<T>)
    requires c + a == c + b
    ensures a == b
  {
    assert a == (c + a)[|c|..] && b == (c + b)[|c|..];
  }

  lemma HeadsEquivalent<T>(cmp: Cmp<T>, s: seq<T>, r: seq<T>, all: seq<T>)
    requires Preorder(cmp, all) && s != [] && r != [] && Sorted(cmp, s) && Sorted(cmp, r)
    requires (forall x | x in s :: x in all) && (forall x | x in s :: x in r) && (forall x | x in r :: x in s)
    ensures Le(cmp, s[0], r[0]) && Le(cmp, r[0], s[0]) && Le(cmp, s[0], s[0])
  {
    assert r[0] in s && s[0] in r;
    var i :| 0 <= i < |s| && s[i] == r[0];
    var j :| 0 <= j < |r| && r[j] == s[0];
    assert Le(cmp, s[0], s[0]) && Le(cmp, r[0], r[0]);
  }
}
