/**
 * The virtual file system (src/vfs.c): a tree of containers and resources, and an index from object
 * ids to its nodes.
 */
module Vfs {
  import opened CStrings
  import opened Sequences
  import opened IdProbe

  datatype Kind = Resource | Container

  /** vfs_item_t; the fields of the union that belong to containers are meaningless in resources. */
  class VfsItem {
    var id: Id
    var title: Path
    var kind: Kind
    var children: seq<VfsItem?>  // ends with NULL
    var childrenCount: Id
    var updateID: Id
    var parent: VfsItem?

    /** calloc */
    constructor (kind: Kind)
      ensures this.kind == kind && childrenCount == 0 && updateID == 0 && parent == null && children == []
    {
      this.kind := kind;
      id, title, children, childrenCount, updateID, parent := 0, [], [], 0, 0, null;
    }
  }

  /** An array of children that ends with its only NULL. */
  predicate Terminated(c: seq<VfsItem?>) {
    c != [] && c[|c| - 1] == null && forall i | 0 <= i < |c| - 1 :: c[i] != null
  }

  /** The children in front of the NULL. */
  function Kids(c: seq<VfsItem?>): (k: seq<VfsItem>)
    requires Terminated(c)
    ensures |k| == |c| - 1
  {
    seq(|c| - 1, i requires 0 <= i < |c| - 1 => c[i])
  }

  /** list_get_length */
  method ListGetLength(l: seq<VfsItem?>) returns (n: nat)
    requires Terminated(l)
    ensures n == |Kids(l)|
  {
    n := 0;
    while l[n] != null
      invariant n < |l|
      decreases |l| - n
    {
      n := n + 1;
    }
  }

  /** dlna_t, as far as the VFS is concerned */
  class Dlna {
    const xbox: bool
    var vfsRoot: VfsItem?
    var index: map<Id, VfsItem>  // the hash table
    var vfsItems: Id
    ghost var nodes: set<VfsItem>       // the registered nodes
    ghost var rank: map<VfsItem, nat>   // grows from parent to child

    constructor (xbox: bool)
      ensures Valid() && index == map[] && this.xbox == xbox
    {
      this.xbox := xbox;
      vfsRoot, index, vfsItems, nodes, rank := null, map[], 0, {}, map[];
    }

    /** Every node is registered under its own id. */
    ghost predicate Keyed()
      reads this, nodes`id
    {
      && (vfsRoot == null ==> index == map[])
      && (forall i | i in index :: index[i] in nodes && index[i].id == i)
      && (forall x | x in nodes :: x.id in index && index[x.id] == x)
    }

    /** A container: its array ends with NULL, is counted, and holds each of its children once. */
    ghost predicate GoodContainer(x: VfsItem, pending: VfsItem?)
      reads `nodes, `vfsRoot, `rank, x`children, x`childrenCount, nodes`parent
    {
      && Terminated(x.children)
      && x.childrenCount == |Kids(x.children)|
      && NoDup(Kids(x.children))
      && forall c | c in Kids(x.children) :: IsChild(x, c, pending)
    }

    ghost predicate IsChild(x: VfsItem, c: VfsItem, pending: VfsItem?)
      reads `nodes, `vfsRoot, `rank, nodes`parent
    {
      x != pending && c in nodes && c != vfsRoot && c != pending && c.parent == x && Deeper(x, c)
    }

    ghost predicate Deeper(x: VfsItem, c: VfsItem)
      reads `rank
    {
      x in rank && c in rank && rank[x] < rank[c]
    }

    /** A node below the root is a child of its parent, which is a container. */
    ghost predicate Adopted(x: VfsItem)
      reads `nodes, x`parent, nodes`kind, nodes`children
    {
      x.parent != null && x.parent in nodes && x.parent.kind.Container?
      && Terminated(x.parent.children) && x in Kids(x.parent.children)
    }

    /** The tree and the index agree, except that the node pending is registered but has no parent yet. */
    ghost predicate ValidBut(pending: VfsItem?)
      reads this, nodes`id, nodes`kind, nodes`parent, nodes`children, nodes`childrenCount
    {
      && Keyed()
      && (vfsRoot == null ==> vfsItems == 0 && pending == null)
      && (vfsRoot != null ==>
            && vfsRoot in nodes && vfsRoot.kind.Container? && vfsRoot.parent == vfsRoot && vfsRoot != pending
            && vfsItems == |index| - if pending == null then 1 else 2)
      && (pending != null ==> pending in nodes)
      && (forall x | x in nodes && x.kind.Container? :: GoodContainer(x, pending))
      && (forall x | x in nodes && x != vfsRoot && x != pending :: Adopted(x))
      && (forall x | x in nodes && x != pending :: x in rank)
    }

    /** The tree and the index agree. */
    ghost predicate Valid()
      reads this, nodes`id, nodes`kind, nodes`parent, nodes`children, nodes`childrenCount
    {
      ValidBut(null)
    }

    // ---- ids ----

    /** vfs_is_id_registered */
    predicate IsIdRegistered(id: Id)
      reads this
    {
      vfsRoot != null && id in index
    }

    /** vfs_get_item_by_id */
    function GetItemById(id: Id): (item: VfsItem?)
      requires Keyed()
      reads this, nodes
      ensures item == null <==> id !in index
      ensures item != null ==> item.id == id && item == index[id] && item in nodes
    {
      if vfsRoot != null && id in index then index[id] else null
    }

    /** What the search for an id answers: an id that is not taken, or the id in front of the first tried one. */
    ghost predicate Provided(fullpath: Option<Path>, id: Id)
      reads this
    {
      if vfsRoot == null then id == Start(xbox) - 1
      else
        match fullpath
        case None => id == Answer(FirstFree(index.Keys, Start(xbox)))
        case Some(path) =>
          forall n: nat :: Settled(Rounds(index.Keys, path, Start(xbox), n)) ==>
            id == Answer(Rounds(index.Keys, path, Start(xbox), n))
    }

    function Answer(o: Outcome): Id {
      if o.Free? then o.id else Start(xbox) - 1
    }

    /** vfs_provide_next_id */
    method ProvideNextId(fullpath: Option<Path>) returns (id: Id)
      requires fullpath.Some? ==> Ends(index.Keys, fullpath.value, Start(xbox))
      ensures Provided(fullpath, id)
      ensures vfsRoot != null && id in index ==> id == if xbox then 100000 else 0
      ensures vfsRoot != null && fullpath.None? && (forall j: Id | (if xbox then 100001 else 1) <= j < 0xFFFF_FFFF :: j in index) ==>
                id == if xbox then 100000 else 0
    {
      hide Hashed;
      var start := Start(xbox);
      if vfsRoot == null {
        return start - 1;
      }
      var i: Id := start;
      ghost var left: nat := 0;
      if fullpath.Some? {
        left :| Settled(Rounds(index.Keys, fullpath.value, start, left));
        OneOutcome(index.Keys, fullpath.value, start, left);
      }
      ghost var result := if fullpath.Some? then Rounds(index.Keys, fullpath.value, start, left)
                          else FirstFree(index.Keys, start);
      while i < UINT_MAX
        invariant fullpath.None? ==> result == FirstFree(index.Keys, i)
        invariant fullpath.Some? ==> Settled(result) && result == Rounds(index.Keys, fullpath.value, i, left)
        decreases if fullpath.Some? then left else 0, UINT_MAX - i
      {
        if fullpath.Some? {
          i := Hashed(i, fullpath.value);
        }
        if !IsIdRegistered(i) {
          assert result == Free(i);
          return i;
        }
        i := Next(i);
        if fullpath.Some? {
          left := left - 1;
        }
      }
      return start - 1;
    }

    // ---- adding ----

    /** vfs_item_add_child */
    method AddChild(item: VfsItem, child: VfsItem)
      requires Terminated(item.children)
      modifies item`children, item`childrenCount, `vfsItems
      ensures Terminated(item.children)
      ensures child in old(Kids(item.children)) ==>
                && item.children == old(item.children) && item.childrenCount == old(item.childrenCount)
                && vfsItems == old(vfsItems)
      ensures child !in old(Kids(item.children)) ==>
                && Kids(item.children) == old(Kids(item.children)) + [child]
                && item.childrenCount == Next(old(item.childrenCount)) && vfsItems == Next(old(vfsItems))
    {
      ghost var kids := Kids(item.children);
      var c := 0;
      while item.children[c] != null
        invariant 0 <= c < |item.children|
        invariant child !in kids[..c]
        decreases |item.children| - c
      {
        if item.children[c] == child {
          assert kids[c] == child;
          return;
        }
        c := c + 1;
        assert kids[..c] == kids[..c - 1] + [kids[c - 1]];
      }
      assert kids[..c] == kids;
      var n := ListGetLength(item.children);
      n := n + 1;
      item.children := item.children[..n - 1] + [child, null];
      item.childrenCount := Next(item.childrenCount);
      vfsItems := Next(vfsItems);
      assert Kids(item.children) == kids + [child];
    }

    /** The entry in the index; the containers stay as they are, and x has no parent yet. */
    method Enter(x: VfsItem)
      requires Valid() && x.id !in index && x !in nodes
      requires x.kind.Container? ==> x.children == [null] && x.childrenCount == 0
      modifies `index, `nodes
      ensures index == old(index)[x.id := x] && nodes == old(nodes) + {x}
      ensures vfsRoot != null ==> Keyed()
      ensures vfsRoot != null ==> forall y | y in nodes && y.kind.Container? :: GoodContainer(y, x)
    {
      hide Terminated, NoDup, Kids, Adopted;
      NewContainer(x);
      index := index[x.id := x];
      nodes := nodes + {x};
      if vfsRoot != null {
        forall y | y in nodes && y.kind.Container?
          ensures GoodContainer(y, x)
        {
          if y != x {
            assert old(GoodContainer(y, null));
            forall c | c in Kids(y.children)
              ensures IsChild(y, c, x)
            {
              assert old(IsChild(y, c, null));
            }
          }
        }
      }
    }

    /** HASH_ADD_INT: the first item also becomes the head of the table, which is the root. */
    method Register(x: VfsItem)
      requires Valid() && x.id !in index && x !in nodes
      requires vfsRoot == null ==> x.kind.Container?
      requires x.kind.Container? ==> x.children == [null] && x.childrenCount == 0
      modifies `index, `nodes, `vfsRoot, `rank
      ensures index == old(index)[x.id := x] && nodes == old(nodes) + {x}
      ensures vfsRoot == if old(vfsRoot) == null then x else old(vfsRoot)
      ensures if old(vfsRoot) == null then nodes == {x} else ValidBut(x)
    {
      hide Terminated, NoDup, Kids, GoodContainer, IsChild;
      Enter(x);
      if vfsRoot == null {
        vfsRoot := x;
      } else {
        forall y | y in nodes && y != vfsRoot && y != x
          ensures Adopted(y)
        {
          assert old(Adopted(y));
        }
      }
    }

    lemma NewContainer(x: VfsItem)
      ensures x.children == [null] ==> Terminated(x.children) && Kids(x.children) == [] && NoDup(Kids(x.children))
    {
    }

    /** The parent a new node gets: the container asked for, or the root. */
    function ParentFor(containerId: Id): VfsItem?
      reads this
    {
      if containerId in index then index[containerId] else vfsRoot
    }

    /** The last part of an addition: looks up the parent of x and links x to it. */
    method LinkParent(x: VfsItem, containerId: Id)
      requires Keyed() && vfsRoot != null && vfsRoot in nodes && x in nodes
      requires ParentFor(containerId) == x || Terminated(ParentFor(containerId).children)
      modifies x`parent, {ParentFor(containerId)}`updateID
      modifies {ParentFor(containerId)}`children, {ParentFor(containerId)}`childrenCount, `vfsItems
      ensures var p: VfsItem := ParentFor(containerId);
              && x.parent == p
              && p.updateID == (if containerId in index then Next(old(p.updateID)) else old(p.updateID))
              && if p == x || x in old(Kids(p.children)) then
                   p.children == old(p.children) && p.childrenCount == old(p.childrenCount) && vfsItems == old(vfsItems)
                 else
                   && Terminated(p.children) && Kids(p.children) == old(Kids(p.children)) + [x]
                   && p.childrenCount == Next(old(p.childrenCount)) && vfsItems == Next(old(vfsItems))
    {
      x.parent := GetItemById(containerId);
      if x.parent == null {
        x.parent := vfsRoot;
      } else {
        x.parent.updateID := Next(x.parent.updateID);
      }
      if x.parent != x {
        AddChild(x.parent, x);
      }
    }

    /** The number of children fits the counter, because every child has an id of its own. */
    lemma CountsFit(x: VfsItem, pending: VfsItem?)
      requires ValidBut(pending) && x in nodes && x.kind.Container?
      ensures |Kids(x.children)| + (if pending == null then 0 else 1) < |index| <= UINT_MAX + 1
    {
      hide Kids, Adopted, Terminated;
      var kids := Kids(x.children);
      assert GoodContainer(x, pending);
      forall c | c in kids
        ensures c in nodes && c != vfsRoot && c != pending
      {
        assert IsChild(x, c, pending);
      }
      RegisteredFit(if pending == null then kids else [pending] + kids);
    }

    /** Different registered nodes other than the root are fewer than the registered ids. */
    lemma RegisteredFit(c: seq<VfsItem>)
      requires Keyed() && vfsRoot != null && vfsRoot in nodes
      requires NoDup(c) && forall x | x in c :: x in nodes && x != vfsRoot
      ensures |c| < |index| <= UINT_MAX + 1
    {
      DistinctIds(c, index.Keys - {vfsRoot.id});
      IdsFit(index.Keys, UINT_MAX + 1);
      assert |index.Keys - {vfsRoot.id}| == |index.Keys| - 1;
    }

    /** The pending node becomes a child of its parent. */
    method Adopt(x: VfsItem, containerId: Id)
      requires ValidBut(x) && x.id != containerId
      requires containerId in index ==> index[containerId].kind.Container?
      modifies x`parent, {ParentFor(containerId)}`updateID
      modifies {ParentFor(containerId)}`children, {ParentFor(containerId)}`childrenCount, `vfsItems, `rank
      ensures Valid() && vfsItems == old(vfsItems) + 1 && NewChild(x, ParentFor(containerId), containerId in index)
    {
      hide Terminated, NoDup, Kids, IsChild, GoodContainer;
      ghost var p := ParentFor(containerId);
      AdoptLinks(x, containerId);
      forall y | y in nodes && y != vfsRoot
        ensures Adopted(y)
      {
        if y == x {
          assert y.parent == p && p in nodes;
        } else {
          assert old(Adopted(y));
        }
      }
    }

    /** x is behind the children that p had; asking for p by its id has counted an update. */
    twostate predicate NewChild(new x: VfsItem, p: VfsItem?, found: bool)
      reads x`parent, {p}`children, {p}`updateID
    {
      && p != null && x.parent == p
      && Terminated(old(p.children)) && Terminated(p.children)
      && Kids(p.children) == Kids(old(p.children)) + [x]
      && p.updateID == if found then Next(old(p.updateID)) else old(p.updateID)
    }

    method AdoptLinks(x: VfsItem, containerId: Id)
      requires ValidBut(x) && x.id != containerId
      requires containerId in index ==> index[containerId].kind.Container?
      modifies x`parent, {ParentFor(containerId)}`updateID
      modifies {ParentFor(containerId)}`children, {ParentFor(containerId)}`childrenCount, `vfsItems, `rank
      ensures vfsItems == old(vfsItems) + 1 && NewChild(x, ParentFor(containerId), containerId in index)
      ensures forall y | y in nodes :: y in rank
      ensures forall y | y in nodes && y.kind.Container? :: GoodContainer(y, null)
    {
      hide Terminated, NoDup, Kids;
      ghost var p: VfsItem := ParentFor(containerId);
      assert p in nodes && p.kind.Container? && p != x;
      assert GoodContainer(p, x);
      CountsFit(p, x);
      ghost var kids := Kids(p.children);
      forall c | c in kids
        ensures c != x
      {
        assert IsChild(p, c, x);
      }
      LinkParent(x, containerId);
      rank := rank[x := rank[p] + 1];
      NoDupAppend(kids, x);
      forall y | y in nodes && y.kind.Container?
        ensures GoodContainer(y, null)
      {
        if y != p {
          assert old(GoodContainer(y, x));
        }
        forall c | c in Kids(y.children)
          ensures IsChild(y, c, null)
        {
          if c != x || y != p {
            assert old(IsChild(y, c, x));
          }
        }
      }
    }

    /** A node that finds itself as its parent: the root, or a container that is lost. */
    method LinkToItself(x: VfsItem, containerId: Id)
      requires Keyed() && vfsRoot != null && vfsRoot in nodes && x in nodes && ParentFor(containerId) == x
      requires x.kind.Container? && x.children == [null] && x.childrenCount == 0 && vfsItems == |index| - if x == vfsRoot then 1 else 2
      requires x == vfsRoot ==> nodes == {x}
      modifies x, `rank, `vfsItems
      ensures vfsItems == old(vfsItems) && x.parent == x && x.children == [null] && x.kind.Container? && x.title == old(x.title) && x.id == old(x.id)
      ensures Valid() <==> x == vfsRoot
    {
      hide IsChild;
      NewContainer(x);
      LinkParent(x, containerId);
      rank := rank[x := 0];
      if x != vfsRoot {
        assert !Adopted(x);
      }
    }

    /** The part shared by both additions: the registration, and the link to the parent. */
    method Insert(x: VfsItem, containerId: Id)
      requires Valid() && x.id !in index && x !in nodes
      requires containerId in index ==> index[containerId].kind.Container?
      requires vfsRoot == null || containerId == x.id ==> x.kind.Container?
      requires x.kind.Container? ==> x.children == [null] && x.childrenCount == 0
      modifies this, x, {ParentFor(containerId)}`updateID
      modifies {ParentFor(containerId)}`children, {ParentFor(containerId)}`childrenCount
      ensures index == old(index)[x.id := x] && nodes == old(nodes) + {x}
      ensures vfsRoot == if old(vfsRoot) == null then x else old(vfsRoot)
      ensures x.id == old(x.id) && x.kind == old(x.kind) && x.title == old(x.title) && x.children == old(x.children)
      ensures Valid() <==> old(vfsRoot) == null || containerId != x.id
      ensures if old(vfsRoot) == null || containerId == x.id
              then vfsItems == old(vfsItems) && x.parent == x
              else vfsItems == old(vfsItems) + 1
                   && NewChild(x, old(ParentFor(containerId)), containerId in old(index))
    {
      hide Terminated, NoDup, Kids, IsChild, GoodContainer, Adopted;
      Register(x);
      if ParentFor(containerId) == x {
        LinkToItself(x, containerId);
      } else {
        Adopt(x, containerId);
      }
    }

    // ---- the two additions ----

    /**
     * The id asked for is granted if it is not 0 and free. Otherwise the first container of all gets 0, or
     * 100000 in Xbox mode, and later ones the least free id from 1, or 100001, on.
     */
    ghost predicate GrantsAsked(objectId: Id, id: Id)
      reads this
    {
      if objectId != 0 && objectId !in index then id == objectId
      else if vfsRoot == null then id == if xbox then 100000 else 0
      else
        && (if xbox then 100001 else 1) <= id < 0xFFFF_FFFF && id !in index
        && forall j: Id | (if xbox then 100001 else 1) <= j < id :: j in index
    }

    /** The id of a new container: the one asked for, or the first free one. */
    ghost function GrantedId(objectId: Id): (id: Id)
      reads this
      ensures objectId == 0 || objectId in index ==> Provided(None, id)
    {
      if objectId != 0 && objectId !in index then objectId
      else if vfsRoot == null then Start(xbox) - 1
      else Answer(FirstFree(index.Keys, Start(xbox)))
    }

    /**
     * dlna_vfs_add_container. The id asked for is granted if it is free and not 0. A container is
     * registered before its parent is looked up, so one that names its own new id as its parent is
     * found as its own parent and hangs below nothing: the tree and the index still agree afterwards
     * if and only if that is not the case (or the container is the root).
     */
    method AddContainer(name: Option<Path>, objectId: Id, containerId: Id) returns (id: Id)
      requires Valid()
      requires containerId in index ==> index[containerId].kind.Container?
      requires vfsRoot != null && (objectId == 0 || objectId in index) ==>
                 FirstFree(index.Keys, Start(xbox)).Free?
      modifies this, {ParentFor(containerId)}`updateID
      modifies {ParentFor(containerId)}`children, {ParentFor(containerId)}`childrenCount
      ensures name.None? ==>
                && id == 0 && index == old(index) && nodes == old(nodes) && vfsItems == old(vfsItems) && Valid()
      ensures name.Some? ==>
                && id !in old(index) && id in index && fresh(index[id]) && index == old(index)[id := index[id]]
                && id == old(GrantedId(objectId))
                && old(GrantsAsked(objectId, id))
                && index[id].id == id && index[id].title == name.value && index[id].kind.Container?
                && index[id].children == [null] && index[id].updateID == 0
                && vfsRoot == (if old(vfsRoot) == null then index[id] else old(vfsRoot))
      ensures name.Some? ==> (Valid() <==> old(vfsRoot == null || containerId != GrantedId(objectId)))
      ensures name.Some? ==>
                if old(vfsRoot) == null || containerId == id
                then vfsItems == old(vfsItems) && index[id].parent == index[id]
                else
                  var p := if containerId in old(index) then old(index)[containerId] else old(vfsRoot);
                  && vfsItems == old(vfsItems) + 1
                  && index[id].parent == p && Terminated(p.children) && Kids(p.children) == old(Kids(p.children)) + [index[id]]
                  && p.updateID == if containerId !in old(index) then old(p.updateID)
                                   else if old(p.updateID) == 0xFFFF_FFFF then 0 else old(p.updateID) + 1
    {
      hide Terminated, NoDup, Kids, ValidBut, GrantsAsked;
      if name.None? {
        return 0;
      }
      var item := MakeContainer(name.value, objectId);
      Insert(item, containerId);
      item.updateID := 0;
      return item.id;
    }

    /** The new container, with its id. */
    method MakeContainer(title: Path, objectId: Id) returns (item: VfsItem)
      requires Valid()
      requires vfsRoot != null && (objectId == 0 || objectId in index) ==> FirstFree(index.Keys, Start(xbox)).Free?
      ensures Valid() && fresh(item) && item !in nodes
      ensures item.id == GrantedId(objectId) && item.id !in index && GrantsAsked(objectId, item.id)
      ensures item.title == title && item.kind.Container? && item.children == [null] && item.childrenCount == 0
    {
      hide Terminated, NoDup, Kids, ValidBut, GrantsAsked;
      IndexedNodes();
      GrantedIsAsked(objectId);
      item := new VfsItem(Container);
      if objectId == 0 || IsIdRegistered(objectId) {
        item.id := ProvideNextId(None);
      } else {
        item.id := objectId;
      }
      item.title := title;
      item.children := [null];
      item.childrenCount := 0;
    }

    lemma GrantedIsAsked(objectId: Id)
      requires vfsRoot != null && (objectId == 0 || objectId in index) ==> FirstFree(index.Keys, Start(xbox)).Free?
      ensures GrantsAsked(objectId, GrantedId(objectId))
    {
    }

    lemma IndexedNodes()
      requires Valid()
      ensures Keyed()
    {
    }

    /** The search over hashed ids finds an id for the path. */
    ghost predicate FindsId(path: Path)
      reads this
    {
      Finds(index.Keys, path, Start(xbox))
    }

    /** Whether an id is found can be told by one round more than there are objects. */
    lemma FindsIdIff(path: Path)
      ensures FindsId(path) <==> Rounds(index.Keys, path, Start(xbox), |index.Keys| + 1).Free?
    {
      hide Rounds;
      FindsIff(index.Keys, path, Start(xbox));
    }

    /** With the root under id 0 there is a path for which no id is ever found. */
    lemma NoIdForLoopingPath()
      requires !xbox && 0 in index
      ensures !FindsId(LOOPING) && !Ends(index.Keys, LOOPING, Start(xbox))
    {
      forall n: nat
        ensures !Settled(Rounds(index.Keys, LOOPING, 1, n))
      {
        NeverEnds(index.Keys, n);
      }
    }

    /**
     * dlna_vfs_add_resource. Whether the media item of the path is known or can be made is a parameter.
     * If not, the node is freed again; that counts an item that was never added, so the tree and the
     * index agree afterwards if and only if there is a media item.
     */
    method AddResource(name: Option<Path>, fullpath: Option<Path>, containerId: Id, hasItem: bool) returns (id: Id)
      requires Valid()
      requires vfsRoot != null && fullpath.Some? ==>
                 && FindsId(fullpath.value)
                 && if containerId in index then index[containerId].kind.Container?
                    else !Provided(fullpath, containerId)
      modifies this, {ParentFor(containerId)}`updateID
      modifies {ParentFor(containerId)}`children, {ParentFor(containerId)}`childrenCount
      ensures var adds := name.Some? && fullpath.Some? && old(vfsRoot) != null;
              && (!adds ==> id == 0 && index == old(index) && vfsItems == old(vfsItems))
              && (adds && !hasItem ==>
                    id == 0 && index == old(index) && vfsItems == if old(vfsItems) == 0 then UINT_MAX else old(vfsItems) - 1)
              && (adds && hasItem ==>
                    && id !in old(index) && id in index && fresh(index[id]) && index == old(index)[id := index[id]]
                    && old(Provided(fullpath, id)) && vfsItems == old(vfsItems) + 1
                    && FirstOfTried(old(index.Keys), fullpath.value, if xbox then 100001 else 1, id)
                    && index[id].id == id && index[id].title == name.value && index[id].kind.Resource?
                    && var p := if containerId in old(index) then old(index)[containerId] else old(vfsRoot);
                       && index[id].parent == p && Terminated(p.children) && Kids(p.children) == old(Kids(p.children)) + [index[id]]
                       && p.updateID == if containerId !in old(index) then old(p.updateID)
                                        else if old(p.updateID) == 0xFFFF_FFFF then 0 else old(p.updateID) + 1)
              && (Valid() <==> adds ==> hasItem)
      ensures vfsRoot == old(vfsRoot)
    {
      hide Terminated, NoDup, Kids, ValidBut, Hashed;
      if name.None? || fullpath.None? {
        return 0;
      }
      if vfsRoot == null {
        return 0;
      }
      IndexedNodes();
      var item := new VfsItem(Resource);
      ghost var n: nat :| Rounds(index.Keys, fullpath.value, Start(xbox), n).Free?;
      FoundIsFree(index.Keys, fullpath.value, Start(xbox), n);
      item.id := ProvideNextId(fullpath);
      TriedIsProvided(fullpath.value, item.id);
      item.title := name.value;
      if !hasItem {
        FreeUnlinked(item);
        return 0;
      }
      Insert(item, containerId);
      return item.id;
    }

    /** The search over hashed ids answers the first one tried that is free. */
    lemma TriedIsProvided(path: Path, id: Id)
      requires vfsRoot != null && Provided(Some(path), id)
      ensures FirstOfTried(index.Keys, path, if xbox then 100001 else 1, id)
    {
      hide Hits, Tried, Rounds;
      var start: Id := if xbox then 100001 else 1;
      forall k: nat | Hits(index.Keys, path, start, k)
        ensures id == Tried(path, start, k)
      {
        FirstTried(index.Keys, path, start, k, k + 1);
        assert Settled(Rounds(index.Keys, path, Start(xbox), k + 1));
      }
    }

    /** HASH_ADD_INT, and vfs_item_free on the node that has no parent yet. */
    method FreeUnlinked(item: VfsItem)
      requires Valid() && vfsRoot != null && item.id !in index
      modifies `index, `vfsItems
      ensures index == old(index) && vfsItems == (if old(vfsItems) == 0 then UINT_MAX else old(vfsItems) - 1)
      ensures !Valid()
    {
      hide GoodContainer, Adopted, IsChild;
      index := index[item.id := item];
      index := index - {item.id};
      assert index == old(index);
      vfsItems := if vfsItems == 0 then UINT_MAX else vfsItems - 1;
      CountsFit0();
    }

    lemma CountsFit0()
      requires Keyed() && vfsRoot != null
      ensures |index| <= UINT_MAX + 1
    {
      IdsFit(index.Keys, UINT_MAX + 1);
    }

    // ---- what the agreement means ----

    /** y is reached from x in at most k steps from a container to a child. */
    static ghost predicate Below(x: VfsItem, y: VfsItem, k: nat)
      reads *
    {
      y == x || (k > 0 && x.kind.Container? && Terminated(x.children)
                 && exists i :: 0 <= i < |Kids(x.children)| && Below(Kids(x.children)[i], y, k - 1))
    }

    /** Everything that is reached from a registered node is registered. */
    lemma {:induction false} ReachedIsRegistered(x: VfsItem, y: VfsItem, k: nat)
      requires Valid() && x in nodes && Below(x, y, k)
      ensures y in nodes && y.id in index && index[y.id] == y
      decreases k
    {
      if y != x {
        var i :| 0 <= i < |Kids(x.children)| && Below(Kids(x.children)[i], y, k - 1);
        assert GoodContainer(x, null);
        assert IsChild(x, Kids(x.children)[i], null);
        ReachedIsRegistered(Kids(x.children)[i], y, k - 1);
      }
    }

    lemma {:induction false} OneStepMore(x: VfsItem, p: VfsItem, i: nat, k: nat)
      requires Below(x, p, k) && p.kind.Container? && Terminated(p.children) && i < |Kids(p.children)|
      ensures Below(x, Kids(p.children)[i], k + 1)
      decreases k
    {
      if p == x {
        assert Below(Kids(x.children)[i], Kids(p.children)[i], k);
      } else {
        var j :| 0 <= j < |Kids(x.children)| && Below(Kids(x.children)[j], p, k - 1);
        OneStepMore(Kids(x.children)[j], p, i, k - 1);
      }
    }

    /** Every registered node is reached from the root. */
    lemma {:induction false} RegisteredIsReached(y: VfsItem) returns (k: nat)
      requires Valid() && y in nodes
      ensures vfsRoot != null && Below(vfsRoot, y, k)
      decreases rank[y]
    {
      if y == vfsRoot {
        k := 0;
      } else {
        assert Adopted(y);
        var p: VfsItem := y.parent;
        assert GoodContainer(p, null);
        assert IsChild(p, y, null);
        k := RegisteredIsReached(p);
        var i :| 0 <= i < |Kids(p.children)| && Kids(p.children)[i] == y;
        OneStepMore(vfsRoot, p, i, k);
        k := k + 1;
      }
    }

    /** Nothing below x is less deep than x. */
    lemma {:induction false} BelowIsDeeper(x: VfsItem, y: VfsItem, k: nat)
      requires Valid() && x in nodes && Below(x, y, k)
      ensures y in nodes && x in rank && y in rank && rank[x] <= rank[y]
      decreases k
    {
      if y != x {
        var i :| 0 <= i < |Kids(x.children)| && Below(Kids(x.children)[i], y, k - 1);
        assert GoodContainer(x, null);
        assert IsChild(x, Kids(x.children)[i], null);
        BelowIsDeeper(Kids(x.children)[i], y, k - 1);
      }
    }

    /** A node below x other than x has its parent below x. */
    lemma {:induction false} UpOne(x: VfsItem, y: VfsItem, k: nat)
      requires Valid() && x in nodes && Below(x, y, k) && y != x
      ensures k > 0 && y.parent != null && Below(x, y.parent, k - 1)
      decreases k
    {
      var i :| 0 <= i < |Kids(x.children)| && Below(Kids(x.children)[i], y, k - 1);
      var c := Kids(x.children)[i];
      assert GoodContainer(x, null);
      assert IsChild(x, c, null);
      if c != y {
        UpOne(c, y, k - 1);
        assert Below(c, y.parent, k - 2);
      }
    }

    /** Every registered node but the root occurs exactly once among the children of all containers. */
    lemma OneParent(y: VfsItem, p: VfsItem, q: VfsItem, i: nat, j: nat)
      requires Valid() && p in nodes && q in nodes && p.kind.Container? && q.kind.Container?
      requires Terminated(p.children) && Terminated(q.children)
      requires i < |Kids(p.children)| && Kids(p.children)[i] == y
      requires j < |Kids(q.children)| && Kids(q.children)[j] == y
      ensures p == q && i == j && y != vfsRoot && y.parent == p
    {
      assert GoodContainer(p, null) && GoodContainer(q, null);
      assert IsChild(p, y, null) && IsChild(q, y, null);
    }
  }

  lemma NoDupAppend(c: seq<VfsItem>, x: VfsItem)
    requires NoDup(c) && x !in c
    ensures NoDup(c + [x])
  {
  }

  /** As many different ids as there are nodes. */
  lemma {:induction false} DistinctIds(c: seq<VfsItem>, ids: set<Id>)
    requires forall i, j | 0 <= i < j < |c| :: c[i].id != c[j].id
    requires forall x | x in c :: x.id in ids
    ensures |c| <= |ids|
    decreases |c|
  {
    if c != [] {
      forall x | x in c[1..]
        ensures x.id in ids - {c[0].id}
      {
        assert c[0].id != x.id;
      }
      DistinctIds(c[1..], ids - {c[0].id});
    }
  }

  lemma {:induction false} IdsFit(ids: set<Id>, n: nat)
    requires forall i | i in ids :: i < n
    ensures |ids| <= n
    decreases n
  {
    if n == 0 {
      assert ids == {};
    } else if n - 1 in ids {
      IdsFit(ids - {n - 1}, n - 1);
    } else {
      IdsFit(ids, n - 1);
    }
  }

  /** Asking for id 5 below container 5, when there is only the root. */
  method LostContainer() returns (dlna: Dlna)
    ensures !dlna.Valid() && 5 in dlna.index
  {
    dlna := new Dlna(false);
    var root := dlna.AddContainer(Some([]), 0, 0);
    var lost := dlna.AddContainer(Some([]), 5, 5);
  }

  /** The first two containers in Xbox mode. */
  method XboxIds() returns (root: Id, next: Id)
    ensures root == 100000 && next == 100001
  {
    var dlna := new Dlna(true);
    root := dlna.AddContainer(Some([]), 0, 0);
    next := dlna.AddContainer(Some([]), 0, root);
  }
}
