/**
 * The doubly linked list with sentinels and recycled nodes (src/threadutil/LinkedList.c,
 * src/threadutil/FreeList.c).
 */
module LinkedList {
  import opened CStrings
  import opened Sequences

  /** void*; NULL is 0 */
  type Pointer = nat

  const NULL: Pointer := 0

  const FREELISTSIZE := 100

  /** ListNode. In a recycled node the first field, prev, holds the link of the free chain. */
  class ListNode {
    var prev: ListNode?
    var next: ListNode?
    var item: Pointer

    constructor ()
      ensures prev == null && next == null && item == NULL
    {
      prev, next, item := null, null, NULL;
    }
  }

  // ---- the free list ----

  /** The link of the i-th free node. */
  ghost predicate Chained(c: seq<ListNode>, i: nat)
    requires i < |c|
    reads {c[i]}`prev
  {
    c[i].prev == if i + 1 < |c| then c[i + 1] else null
  }

  class FreeList {
    var head: ListNode?
    const maxFreeListLength: int
    var freeListLength: int
    ghost var chain: seq<ListNode>  // the free nodes, from head on

    /** FreeListInit */
    constructor (maxFreeListLength: int)
      ensures Valid() && chain == [] && this.maxFreeListLength == maxFreeListLength
    {
      this.maxFreeListLength := maxFreeListLength;
      head, freeListLength, chain := null, 0, [];
    }

    ghost predicate Valid()
      reads this, (set x | x in chain)`prev
    {
      && head == (if chain == [] then null else chain[0])
      && (forall i | 0 <= i < |chain| :: Chained(chain, i))
      && NoDup(chain)
      && freeListLength == |chain|
      && (chain == [] || |chain| < maxFreeListLength)
    }

    /** FreeListAlloc: the last node given back, or a new one. */
    method Alloc() returns (ret: ListNode)
      requires Valid()
      modifies this
      ensures Valid()
      ensures if old(chain) == [] then fresh(ret) && chain == [] else ret == old(chain)[0] && chain == old(chain)[1..]
    {
      if head != null {
        ret := head;
        assert Chained(chain, 0);
        head := head.prev;
        freeListLength := freeListLength - 1;
        ghost var was := chain;
        chain := was[1..];
        forall i | 0 <= i < |chain|
          ensures Chained(chain, i)
        {
          assert Chained(was, i + 1);
        }
      } else {
        ret := new ListNode();
      }
    }

    /** FreeListFree: the node is kept if the free list stays shorter than its maximum. */
    method Free(element: ListNode?)
      requires Valid() && (element != null ==> element !in chain)
      modifies this, (if element == null then {} else {element})`prev
      ensures Valid()
      ensures chain == if element != null && |old(chain)| + 1 < maxFreeListLength then [element] + old(chain) else old(chain)
    {
      if element != null && freeListLength + 1 < maxFreeListLength {
        freeListLength := freeListLength + 1;
        element.prev := head;
        head := element;
        ghost var was := chain;
        chain := [element] + was;
        forall i | 0 <= i < |chain|
          ensures Chained(chain, i)
        {
          if i > 0 {
            assert old(Chained(chain, i - 1));
          }
        }
      } else if element != null {
        forall i | 0 <= i < |chain|
          ensures Chained(chain, i)
        {
          assert old(Chained(chain, i));
        }
      }
    }

    /** FreeListDestroy */
    method Destroy()
      requires Valid()
      modifies this
      ensures Valid() && chain == []
    {
      while head != null
        invariant head == if chain == [] then null else chain[0]
        invariant forall i | 0 <= i < |chain| :: Chained(chain, i)
        decreases |chain|
      {
        assert Chained(chain, 0);
        var temp := head.prev;
        head := temp;
        ghost var was := chain;
        chain := was[1..];
        forall i | 0 <= i < |chain|
          ensures Chained(chain, i)
        {
          assert Chained(was, i + 1);
        }
      }
      freeListLength := 0;
    }
  }

  // ---- the list ----

  ghost function ItemsOf(c: seq<ListNode>): (s: seq<Pointer>)
    reads (set x | x in c)`item
    ensures |s| == |c| && forall i | 0 <= i < |c| :: s[i] == c[i].item
  {
    if c == [] then [] else [c[0].item] + ItemsOf(c[1..])
  }

  /** The i-th and the next node of c are linked to each other. */
  ghost predicate Joined(c: seq<ListNode>, i: nat)
    requires i + 1 < |c|
    reads {c[i]}`next, {c[i + 1]}`prev
  {
    c[i].next == c[i + 1] && c[i + 1].prev == c[i]
  }

  class List {
    const head: ListNode
    const tail: ListNode
    var size: int
    const freeNodeList: FreeList
    const cmpFunc: Option<(Pointer, Pointer) -> bool>
    const hasFreeFunc: bool
    var freed: seq<Pointer>       // the items free_func has been called with
    ghost var nodes: seq<ListNode>

    /** The nodes with the sentinels around them. */
    ghost function All(): seq<ListNode>
      reads `nodes
    {
      [head] + nodes + [tail]
    }

    ghost predicate Valid()
      reads this, freeNodeList, (set x | x in All())`next, (set x | x in All())`prev
      reads (set x | x in freeNodeList.chain)`prev
    {
      && size == |nodes|
      && (forall i | 0 <= i < |nodes| + 1 :: Joined(All(), i))
      && NoDup(All())
      && freeNodeList.Valid() && freeNodeList.maxFreeListLength == FREELISTSIZE
      && forall x | x in freeNodeList.chain :: x !in All()
    }

    /** The stored items, first to last. */
    ghost function Items(): seq<Pointer>
      reads `nodes, (set x | x in nodes)`item
    {
      ItemsOf(nodes)
    }

    /** ListInit */
    constructor (cmpFunc: Option<(Pointer, Pointer) -> bool>, hasFreeFunc: bool)
      ensures Valid() && nodes == [] && freed == [] && freeNodeList.chain == [] && freeNodeList.maxFreeListLength == 100
      ensures this.cmpFunc == cmpFunc && this.hasFreeFunc == hasFreeFunc
    {
      size, freed, nodes := 0, [], [];
      this.cmpFunc, this.hasFreeFunc := cmpFunc, hasFreeFunc;
      freeNodeList := new FreeList(FREELISTSIZE);
      head := new ListNode();
      tail := new ListNode();
      new;
      head.next := tail;
      tail.prev := head;
    }

    /** Where a new node comes from: the free chain as long as it has nodes. */
    twostate predicate Recycled(new newNode: ListNode?)
      reads freeNodeList
    {
      if newNode == null then freeNodeList.chain == old(freeNodeList.chain)
      else if old(freeNodeList.chain) == [] then fresh(newNode) && freeNodeList.chain == []
      else newNode == old(freeNodeList.chain)[0] && freeNodeList.chain == old(freeNodeList.chain)[1..]
    }

    /** CreateListNode */
    method CreateListNode(item: Pointer) returns (temp: ListNode)
      requires Valid()
      modifies freeNodeList, (set x | x in freeNodeList.chain)
      ensures Valid() && temp !in All() && temp !in freeNodeList.chain
      ensures temp.item == item && temp.prev == null && temp.next == null
      ensures Recycled(temp)
      ensures forall x | x in All() :: unchanged(x)
    {
      temp := freeNodeList.Alloc();
      temp.prev := null;
      temp.next := null;
      temp.item := item;
    }

    /**
     * The new node n has been linked in behind the i-th node of a; the list is then valid with n in
     * its place.
     */
    ghost method Inserted(n: ListNode, i: nat)
      requires i <= |nodes| && n !in All() && n !in freeNodeList.chain
      requires var a := All(); a[i].next == n && n.prev == a[i] && n.next == a[i + 1] && a[i + 1].prev == n
      requires forall j | 0 <= j < |nodes| + 1 && j != i :: Joined(All(), j)
      requires NoDup(All()) && freeNodeList.Valid() && freeNodeList.maxFreeListLength == FREELISTSIZE
      requires forall x | x in freeNodeList.chain :: x !in All()
      requires size == |nodes| + 1
      modifies `nodes
      ensures Valid() && nodes == old(nodes)[..i] + [n] + old(nodes)[i..]
    {
      hide FreeList.Valid;
      ghost var a := All();
      nodes := nodes[..i] + [n] + nodes[i..];
      ghost var b := All();
      assert b == a[..i + 1] + [n] + a[i + 1..];
      forall j | 0 <= j < |nodes| + 1
        ensures Joined(b, j)
      {
        if j < i {
          assert Joined(a, j);
        } else if j > i + 1 {
          assert Joined(a, j - 1);
        }
      }
      forall x | x in freeNodeList.chain
        ensures x !in b
      {
        assert x !in a;
      }
    }

    /** The place of a node in front of the tail. */
    lemma Place(x: ListNode) returns (i: nat)
      requires x == head || x in nodes
      ensures i <= |nodes| && All()[i] == x && (x in nodes && head !in nodes ==> i > 0 && nodes[i - 1] == x)
    {
      if x == head {
        i := 0;
      } else {
        var k :| 0 <= k < |nodes| && nodes[k] == x;
        i := k + 1;
      }
    }

    /** Links n in between the i-th node and the one behind it. */
    method Splice(before: ListNode, n: ListNode, after: ListNode, ghost i: nat)
      requires Valid() && n !in All() && n !in freeNodeList.chain
      requires i <= |nodes| && before == All()[i] && after == All()[i + 1]
      modifies `size, `nodes, before`next, n`prev, n`next, after`prev
      ensures Valid() && nodes == old(nodes)[..i] + [n] + old(nodes)[i..]
    {
      ghost var a := All();
      before.next := n;
      n.prev := before;
      n.next := after;
      after.prev := n;
      size := size + 1;
      forall j | 0 <= j < |nodes| + 1 && j != i
        ensures Joined(a, j)
      {
        assert old(Joined(a, j));
      }
      Inserted(n, i);
    }

    /** ListAddAfter */
    method AddAfter(item: Pointer, bnode: ListNode?) returns (newNode: ListNode?)
      requires Valid() && (bnode != null ==> bnode == head || bnode in nodes)
      modifies this, freeNodeList, (set x | x in freeNodeList.chain)
      modifies (set x | x in All())`next, (set x | x in All())`prev
      ensures Valid() && freed == old(freed) && Recycled(newNode)
      ensures bnode == null ==> newNode == null && nodes == old(nodes)
      ensures bnode != null ==>
                && newNode != null && newNode.item == item && newNode !in old(nodes)
                && exists i :: 0 <= i <= |old(nodes)| && old(All())[i] == bnode
                               && nodes == old(nodes)[..i] + [newNode] + old(nodes)[i..]
      ensures forall x | x in old(nodes) :: x.item == old(x.item)
    {
      hide FreeList.Valid;
      if bnode == null {
        return null;
      }
      ghost var i := Place(bnode);
      newNode := CreateListNode(item);
      assert Joined(All(), i);
      var temp := bnode.next;
      Splice(bnode, newNode, temp, i);
    }

    /** ListAddBefore */
    method AddBefore(item: Pointer, anode: ListNode?) returns (newNode: ListNode?)
      requires Valid() && (anode != null ==> anode == tail || anode in nodes)
      modifies this, freeNodeList, (set x | x in freeNodeList.chain)
      modifies (set x | x in All())`next, (set x | x in All())`prev
      ensures Valid() && freed == old(freed) && Recycled(newNode)
      ensures anode == null ==> newNode == null && nodes == old(nodes)
      ensures anode != null ==>
                && newNode != null && newNode.item == item && newNode !in old(nodes)
                && exists i :: 0 <= i <= |old(nodes)| && old(All())[i + 1] == anode
                               && nodes == old(nodes)[..i] + [newNode] + old(nodes)[i..]
      ensures forall x | x in old(nodes) :: x.item == old(x.item)
    {
      hide FreeList.Valid;
      if anode == null {
        return null;
      }
      ghost var i := |nodes|;
      if anode != tail {
        i :| 0 <= i < |nodes| && nodes[i] == anode;
      }
      newNode := CreateListNode(item);
      assert Joined(All(), i);
      var temp := anode.prev;
      Splice(temp, newNode, anode, i);
    }

    /** ListAddHead */
    method AddHead(item: Pointer) returns (newNode: ListNode)
      requires Valid()
      modifies this, freeNodeList, (set x | x in freeNodeList.chain)
      modifies (set x | x in All())`next, (set x | x in All())`prev
      ensures Valid() && freed == old(freed) && newNode.item == item && nodes == [newNode] + old(nodes) && Recycled(newNode)
      ensures forall x | x in old(nodes) :: x.item == old(x.item)
    {
      hide Joined, FreeList.Valid;
      ghost var a := All();
      assert NoDup(a) && a[0] == head;
      newNode := AddAfter(item, head);
    }

    /** ListAddTail */
    method AddTail(item: Pointer) returns (newNode: ListNode)
      requires Valid()
      modifies this, freeNodeList, (set x | x in freeNodeList.chain)
      modifies (set x | x in All())`next, (set x | x in All())`prev
      ensures Valid() && freed == old(freed) && newNode.item == item && nodes == old(nodes) + [newNode] && Recycled(newNode)
      ensures forall x | x in old(nodes) :: x.item == old(x.item)
    {
      hide Joined, FreeList.Valid;
      ghost var a := All();
      assert NoDup(a) && a[|nodes| + 1] == tail;
      newNode := AddBefore(item, tail);
    }

    /** The neighbours of the i-th node are linked to each other. */
    method Unlink(dnode: ListNode, ghost i: nat)
      requires Valid() && i < |nodes| && nodes[i] == dnode
      modifies `nodes, (set x | x in All())`next, (set x | x in All())`prev
      ensures nodes == old(nodes)[..i] + old(nodes)[i + 1..]
      ensures (forall j | 0 <= j < |nodes| + 1 :: Joined(All(), j)) && NoDup(All()) && dnode !in All()
      ensures freeNodeList.Valid() && forall x | x in freeNodeList.chain :: x !in All() && x != dnode
    {
      hide FreeList.Valid;
      ghost var a := All();
      assert Joined(a, i) && Joined(a, i + 1);
      dnode.prev.next := dnode.next;
      dnode.next.prev := dnode.prev;
      nodes := nodes[..i] + nodes[i + 1..];
      ghost var b := All();
      assert b == a[..i + 1] + a[i + 2..];
      forall j | 0 <= j < |nodes| + 1
        ensures Joined(b, j)
      {
        ghost var k := if j <= i then j else j + 1;
        assert old(Joined(a, k));
      }
      forall x | x in freeNodeList.chain
        ensures x !in b && x != dnode
      {
        assert x !in a && dnode == a[i + 1];
      }
    }

    /** freeListNode, for a node that is no longer in the list */
    method FreeListNode(node: ListNode)
      requires freeNodeList.Valid() && node !in All() && node !in freeNodeList.chain
      requires forall j | 0 <= j < |nodes| + 1 :: Joined(All(), j)
      requires forall x | x in freeNodeList.chain :: x !in All()
      modifies freeNodeList, node`prev
      ensures freeNodeList.Valid() && forall x | x in freeNodeList.chain :: x !in All()
      ensures forall j | 0 <= j < |nodes| + 1 :: Joined(All(), j)
      ensures freeNodeList.chain == if |old(freeNodeList.chain)| + 1 < freeNodeList.maxFreeListLength
                                    then [node] + old(freeNodeList.chain) else old(freeNodeList.chain)
    {
      hide FreeList.Valid;
      freeNodeList.Free(node);
      forall j | 0 <= j < |nodes| + 1
        ensures Joined(All(), j)
      {
        assert old(Joined(All(), j));
      }
    }

    /** ListDelNode; dnode is not a sentinel. The node is recycled while the free list is short enough. */
    method DelNode(dnode: ListNode?, freeItem: bool) returns (item: Pointer)
      requires Valid() && (dnode != null ==> dnode in nodes)
      modifies this, freeNodeList, (set x | x in All())`next, (set x | x in All())`prev
      ensures Valid()
      ensures dnode == null ==> item == NULL && nodes == old(nodes) && freed == old(freed)
                                && freeNodeList.chain == old(freeNodeList.chain)
      ensures dnode != null ==>
                && (exists i :: 0 <= i < |old(nodes)| && old(nodes)[i] == dnode
                                && nodes == old(nodes)[..i] + old(nodes)[i + 1..])
                && (if freeItem && hasFreeFunc then item == NULL && freed == old(freed) + [dnode.item]
                    else item == dnode.item && freed == old(freed))
                && freeNodeList.chain == if |old(freeNodeList.chain)| + 1 < 100
                                         then [dnode] + old(freeNodeList.chain) else old(freeNodeList.chain)
    {
      hide FreeList.Valid, NoDup;
      if dnode == null {
        return NULL;
      }
      ghost var i :| 0 <= i < |nodes| && nodes[i] == dnode;
      item := dnode.item;
      Unlink(dnode, i);
      FreeListNode(dnode);
      size := size - 1;
      if freeItem && hasFreeFunc {
        freed := freed + [item];
        item := NULL;
      }
    }

    /** The body of its loop. */
    method DeleteFirst(dnode: ListNode, freeItem: bool) returns (temp: ListNode)
      requires Valid() && nodes != [] && dnode == nodes[0]
      modifies this, freeNodeList, (set x | x in All())`next, (set x | x in All())`prev
      ensures Valid() && nodes == old(nodes)[1..] && temp == if nodes != [] then nodes[0] else tail
      ensures freed == old(freed) + if freeItem && hasFreeFunc then [dnode.item] else []
      ensures forall x | x in freeNodeList.chain :: x == dnode || x in old(freeNodeList.chain)
    {
      hide NoDup, FreeList.Valid, Joined, ItemsOf;
      FirstNext();
      temp := dnode.next;
      OnlyFirst();
      var item := DelNode(dnode, freeItem);
    }

    lemma OneMore(base: seq<Pointer>, items: seq<Pointer>, k: nat)
      requires k < |items|
      ensures base + items[..k + 1] == base + items[..k] + [items[k]]
    {
      assert items[..k + 1] == items[..k] + [items[k]];
    }

    /** ListDestroy: the nodes are deleted one by one from the head, then the free list is emptied. */
    method Destroy(freeItem: bool)
      requires Valid()
      modifies this, freeNodeList, (set x | x in All())`next, (set x | x in All())`prev
      ensures Valid() && nodes == [] && freeNodeList.chain == []
      ensures freed == old(freed) + if freeItem && hasFreeFunc then old(Items()) else []
    {
      hide NoDup, FreeList.Valid, Joined, ItemsOf;
      ghost var was, items := nodes, Items();
      ghost var k := 0;
      var dnode: ListNode := FirstOrTail();
      assert was[..0] == [];
      while dnode != tail
        invariant Valid() && 0 <= k <= |was| && nodes == was[k..]
        invariant dnode == if k < |was| then was[k] else tail
        invariant |items| == |was| && forall i | 0 <= i < |was| :: items[i] == was[i].item
        invariant freed == old(freed) + if freeItem && hasFreeFunc then items[..k] else []
        invariant forall x | x in freeNodeList.chain :: x in old(freeNodeList.chain) || x in was
        decreases |was| - k
      {
        TailIsNoNode();
        dnode := DeleteFirst(dnode, freeItem);
        k := k + 1;
        assert nodes == was[k - 1..][1..];
        OneMore(old(freed), items, k - 1);
      }
      TailIsNoNode();
      size := 0;
      freeNodeList.Destroy();
    }

    method FirstOrTail() returns (x: ListNode)
      requires Valid()
      ensures x == if nodes == [] then tail else nodes[0]
    {
      assert Joined(All(), 0);
      return head.next;
    }

    lemma FirstNext()
      requires Valid() && nodes != []
      ensures nodes[0].next == if |nodes| > 1 then nodes[1] else tail
    {
      assert Joined(All(), 1);
    }

    lemma TailIsNoNode()
      requires Valid()
      ensures tail !in nodes && head !in nodes && head != tail
    {
      var a := All();
      assert a[|nodes| + 1] == tail && a[0] == head;
      assert forall i | 0 <= i < |nodes| :: a[i + 1] == nodes[i];
    }

    lemma OnlyFirst()
      requires Valid() && nodes != []
      ensures forall i | 0 <= i < |nodes| && nodes[i] == nodes[0] :: i == 0
    {
      var a := All();
      assert forall i | 0 <= i < |nodes| :: a[i + 1] == nodes[i];
    }

    /** ListHead */
    method Head() returns (x: ListNode?)
      requires Valid()
      ensures x == if nodes == [] then null else nodes[0]
    {
      if size == 0 {
        return null;
      }
      assert Joined(All(), 0);
      return head.next;
    }

    /** ListTail */
    method Tail() returns (x: ListNode?)
      requires Valid()
      ensures x == if nodes == [] then null else nodes[|nodes| - 1]
    {
      if size == 0 {
        return null;
      }
      assert Joined(All(), |nodes|);
      return tail.prev;
    }

    /** ListNext */
    method Next(node: ListNode, ghost i: nat) returns (x: ListNode?)
      requires Valid() && i <= |nodes| && All()[i] == node
      ensures x == if i < |nodes| then nodes[i] else null
    {
      TailIsNoNode();
      assert Joined(All(), i);
      if node.next == tail {
        return null;
      } else {
        return node.next;
      }
    }

    /** ListPrev */
    method Prev(node: ListNode, ghost i: nat) returns (x: ListNode?)
      requires Valid() && 1 <= i <= |nodes| + 1 && All()[i] == node
      ensures x == if i > 1 then nodes[i - 2] else null
    {
      TailIsNoNode();
      assert Joined(All(), i - 1);
      if node.prev == head {
        return null;
      } else {
        return node.prev;
      }
    }

    /** The item in a node matches the one searched for. */
    predicate Matches(item: Pointer, stored: Pointer) {
      match cmpFunc
      case Some(cmp) => cmp(item, stored)
      case None => item == stored
    }

    /** ListFind: the first node behind start, which is the i-th, whose item matches. */
    method Find(start: ListNode?, item: Pointer, ghost i: nat) returns (finger: ListNode?)
      requires Valid()
      requires if start == null then i == 0 else i <= |nodes| && All()[i] == start
      ensures cmpFunc == None ==>
                if finger == null then forall j | i <= j < |nodes| :: nodes[j].item != item
                else exists j :: i <= j < |nodes| && nodes[j] == finger && finger.item == item
                                 && forall m | i <= m < j :: nodes[m].item != item
      ensures cmpFunc.Some? ==>
                if finger == null then forall j | i <= j < |nodes| :: !cmpFunc.value(item, nodes[j].item)
                else exists j :: i <= j < |nodes| && nodes[j] == finger && cmpFunc.value(item, finger.item)
                                 && forall m | i <= m < j :: !cmpFunc.value(item, nodes[m].item)
    {
      hide NoDup, FreeList.Valid;
      TailIsNoNode();
      var from: ListNode := if start == null then head else start;
      assert Joined(All(), i);
      finger := from.next;
      ghost var j := i;
      while finger != tail
        invariant i <= j <= |nodes| && finger == All()[j + 1]
        invariant forall m | i <= m < j :: !Matches(item, nodes[m].item)
        decreases |nodes| - j
      {
        assert finger == nodes[j];
        if Matches(item, finger.item) {
          return;
        }
        j := j + 1;
        assert Joined(All(), j);
        finger := finger.next;
      }
      finger := null;
    }

    /** ListSize */
    method Size() returns (n: int)
      requires Valid()
      ensures n == |Items()|
    {
      return size;
    }
  }

  /** Inserting a node inserts its item. */
  lemma {:induction false} ItemsInserted(c: seq<ListNode>, i: nat, n: ListNode)
    requires i <= |c|
    ensures ItemsOf(c[..i] + [n] + c[i..]) == ItemsOf(c)[..i] + [n.item] + ItemsOf(c)[i..]
  {
    var d := c[..i] + [n] + c[i..];
    forall j | 0 <= j < |d|
      ensures ItemsOf(d)[j] == (ItemsOf(c)[..i] + [n.item] + ItemsOf(c)[i..])[j]
    {
      assert d[j] == if j < i then c[j] else if j == i then n else c[j - 1];
    }
  }
}
