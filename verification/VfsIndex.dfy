/**
 * The index of the virtual file system as a hash table: HASH_FIND_INT, HASH_ADD_INT and HASH_DEL with object
 * ids as keys (src/vfs.c:39, 74, 110, 186, 252) do to a HashHead what the module Vfs does to a map.
 */
module VfsIndex {
  import opened CStrings
  import opened IdProbe
  import opened Vfs
  import opened HashChains
  import opened HashTable

  /** The number in memory, lowest byte first. */
  function Value(s: Bytes): nat {
    if s == [] then 0 else s[0] + 0x100 * Value(s[1..])
  }

  /** The key of HASH_ADD_INT: the four bytes of the id in memory, lowest first. */
  function KeyOf(id: Id): Bytes {
    var a := id / 0x100;
    var b := a / 0x100;
    [id % 0x100, a % 0x100, b % 0x100, b / 0x100]
  }

  lemma KeyValue(id: Id)
    ensures |KeyOf(id)| == 4 && Value(KeyOf(id)) == id
  {
    var s := KeyOf(id);
    assert s[1..][1..] == s[2..] && s[2..][1..] == s[3..] && s[3..][1..] == [];
    assert Value(s[3..]) == s[3];
    assert Value(s[2..]) == s[2] + 0x100 * Value(s[3..]);
    assert Value(s[1..]) == s[1] + 0x100 * Value(s[2..]);
  }

  lemma KeysDiffer(i: Id, j: Id)
    requires KeyOf(i) == KeyOf(j)
    ensures i == j
  {
    KeyValue(i);
    KeyValue(j);
  }

  /** The table in dlna->vfs_root, and which node each hash handle belongs to. */
  class Index {
    const table: HashHead
    var owner: map<Item, VfsItem>

    constructor (hash: Hash)
      ensures Represents(map[]) && table.Valid()
    {
      table := new HashHead(hash);
      owner := map[];
    }

    /** The table holds exactly the entries of m. */
    ghost predicate Represents(m: map<Id, VfsItem>)
      reads this, table
    {
      && (forall i: Id :: i in m <==> KeyOf(i) in table.Contents())
      && (forall i: Id | i in m ::
            var x := table.Contents()[KeyOf(i)]; x in owner && owner[x] == m[i])
    }

    /** HASH_FIND_INT */
    method Find(id: Id, ghost m: map<Id, VfsItem>) returns (item: VfsItem?)
      requires table.Valid() && Represents(m)
      ensures item == if id in m then m[id] else null
    {
      hide HashHead.Contents;
      var x := table.Find(KeyOf(id));
      item := if x == null then null else owner[x];
    }

    /** HASH_ADD_INT for an id that is not in the table. */
    method Add(id: Id, item: VfsItem, ghost m: map<Id, VfsItem>)
      requires table.Valid() && Represents(m) && id !in m
      modifies `owner, table, table.tbl, if table.tbl == null then {} else {table.tbl.buckets}
      modifies SetOf(table.items)`next, SetOf(table.items)`hhPrev, SetOf(table.items)`hhNext
      ensures table.Valid() && Represents(m[id := item])
    {
      hide HashHead.Contents, HashHead.Valid;
      var handle := NewHandle(id);
      table.Add(handle);
      owner := owner[handle := item];
      KeysInjective(id);
    }

    /** The handle in a new node; nothing in the table changes. */
    method NewHandle(id: Id) returns (handle: Item)
      requires table.Valid()
      ensures fresh(handle) && handle.key == KeyOf(id) && table.Valid()
    {
      handle := new Item(KeyOf(id));
    }

    /** HASH_DEL */
    method Remove(id: Id, ghost m: map<Id, VfsItem>)
      requires table.Valid() && Represents(m) && id in m
      modifies table, table.tbl, if table.tbl == null then {} else {table.tbl.buckets}
      modifies SetOf(table.items)`next, SetOf(table.items)`prev, SetOf(table.items)`hhPrev, SetOf(table.items)`hhNext
      ensures table.Valid() && Represents(m - {id})
    {
      hide HashHead.Contents, HashHead.Valid;
      var x := table.Find(KeyOf(id));
      StoredUnder(KeyOf(id));
      table.Delete(Pointer(x));
      KeysInjective(id);
    }

    lemma StoredUnder(key: Bytes)
      requires table.Valid() && key in table.Contents()
      ensures table.Contents()[key] in table.items && table.Contents()[key].key == key
    {
      hide MapOf;
      if table.items != [] {
        StoredParts(table.tbl, table.head, table.items);
      }
      MapOfItems(table.items);
    }
  }

  lemma KeysInjective(id: Id)
    ensures forall i: Id :: KeyOf(i) == KeyOf(id) ==> i == id
  {
    forall i: Id | KeyOf(i) == KeyOf(id)
      ensures i == id
    {
      KeysDiffer(i, id);
    }
  }
}
