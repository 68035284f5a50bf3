/**
 * The growing byte buffer under the printer (src/ixml/ixmlmembuf.c).
 */
module Membuf {
  import opened CStrings

  const MEMBUF_DEF_SIZE_INC := 20

  datatype Code = Success | IndexSizeErr

  lemma Spliced(was: Bytes, index: nat, data: Bytes, now: Bytes)
    requires index <= |was| && |now| == |was| + |data|
    requires forall i | 0 <= i < index :: now[i] == was[i]
    requires forall i | index <= i < index + |data| :: now[i] == data[i - index]
    requires forall i | index + |data| <= i < |now| :: now[i] == was[i - |data|]
    ensures now == was[..index] + data + was[index..]
  {
  }

  /** ixml_membuf */
  class Buffer {
    var buf: array?<Byte>
    var length: nat
    var capacity: nat
    const sizeInc: nat

    /** ixml_membuf_init */
    constructor ()
      ensures Valid() && Contents() == [] && buf == null && sizeInc == 20
    {
      sizeInc := MEMBUF_DEF_SIZE_INC;
      buf, length, capacity := null, 0, 0;
    }

    /** The array has a byte more than the capacity, for the NUL behind the contents. */
    ghost predicate Valid()
      reads this, buf
    {
      if buf == null then length == 0 && capacity == 0
      else buf.Length == capacity + 1 && length <= capacity && buf[length] == 0
    }

    ghost function Contents(): Bytes
      requires Valid()
      reads this, buf
    {
      if buf == null then [] else buf[..length]
    }

    /** The bytes of buf up to the NUL behind the contents. */
    method Text() returns (text: Bytes)
      requires Valid()
      ensures text == Contents()
    {
      if buf == null {
        return [];
      }
      return buf[..length];
    }

    /**
     * ixml_membuf_set_size, when the memory is there. A buffer that shrinks may lose the end of its contents;
     * length stays, for the caller to set.
     */
    method SetSize(newLength: nat)
      requires Valid()
      modifies `buf, `capacity
      ensures newLength <= capacity && (buf == old(buf) || fresh(buf)) && (newLength > 0 ==> buf != null)
      ensures capacity == if newLength < length then
                            if old(capacity) - newLength <= sizeInc then old(capacity) else newLength + sizeInc
                          else if newLength <= old(capacity) then old(capacity)
                          else old(capacity) + if sizeInc > newLength - length then sizeInc else newLength - length
      ensures length <= capacity ==> Valid() && Contents() == old(Contents())
      ensures buf != null ==>
                && buf.Length == capacity + 1
                && forall i | 0 <= i < length && i <= capacity :: buf[i] == old(Contents())[i]
    {
      var allocLen;
      if newLength >= length {
        if newLength <= capacity {
          return;
        }
        var diff := newLength - length;
        allocLen := capacity + if sizeInc > diff then sizeInc else diff;
      } else {
        if capacity - newLength <= sizeInc {
          return;
        }
        allocLen := newLength + sizeInc;
      }
      Reallocate(allocLen);
    }

    /** realloc; what is left of the contents is kept. */
    method Reallocate(allocLen: nat)
      requires Valid()
      modifies `buf, `capacity
      ensures capacity == allocLen && buf != null && fresh(buf) && buf.Length == allocLen + 1
      ensures length <= allocLen ==> Valid() && Contents() == old(Contents())
      ensures forall i | 0 <= i < length && i <= allocLen :: buf[i] == old(Contents())[i]
    {
      var temp := new Byte[allocLen + 1](_ => 0);
      if buf != null {
        forall i | 0 <= i < length && i <= allocLen {
          temp[i] := buf[i];
        }
        assert length <= allocLen ==> temp[..length] == buf[..length];
      }
      buf := temp;
      capacity := allocLen;
    }

    /** ixml_membuf_assign; an empty string needs a buffer to write its NUL to. */
    method Assign(data: Bytes)
      requires Valid() && (data != [] || buf != null)
      modifies this, buf
      ensures Valid() && (buf == old(buf) || fresh(buf)) && Contents() == data
    {
      SetSize(|data|);
      Copy(0, data);
      buf[|data|] := 0;
      length := |data|;
    }

    /** ixml_membuf_insert */
    method Insert(data: Bytes, index: int) returns (code: Code)
      requires Valid()
      modifies this, buf
      ensures Valid() && (buf == old(buf) || fresh(buf))
      ensures code == if 0 <= index <= |old(Contents())| then Success else IndexSizeErr
      ensures Contents() == if code.Success? then old(Contents())[..index] + data + old(Contents())[index..]
                            else old(Contents())
    {
      if index < 0 || index > length {
        return IndexSizeErr;
      }
      code := Success;
      ghost var was := Contents();
      if |data| == 0 {
        assert was == was[..index] + was[index..];
        return;
      }
      SetSize(length + |data|);
      InsertFitting(data, index);
    }

    /** The insertion into a buffer that is large enough. */
    method InsertFitting(data: Bytes, index: nat)
      requires Valid() && buf != null && index <= length && length + |data| <= capacity
      modifies `length, buf
      ensures Valid() && Contents() == old(Contents())[..index] + data + old(Contents())[index..]
    {
      ghost var was := Contents();
      MoveUp(index, |data|);
      Copy(index, data);
      length := length + |data|;
      buf[length] := 0;
      Spliced(was, index, data, buf[..length]);
    }

    /** memcpy(buf + index, data, |data|) */
    method Copy(index: nat, data: Bytes)
      requires buf != null && index + |data| <= buf.Length
      modifies buf
      ensures forall i | index <= i < index + |data| :: buf[i] == data[i - index]
      ensures forall i | 0 <= i < buf.Length && !(index <= i < index + |data|) :: buf[i] == old(buf[i])
    {
      forall i | 0 <= i < |data| {
        buf[index + i] := data[i];
      }
    }

    /** memmove(buf + index + n, buf + index, length - index) */
    method MoveUp(index: nat, n: nat)
      requires Valid() && buf != null && index <= length && length + n <= capacity
      modifies buf
      ensures forall i | index + n <= i < length + n :: buf[i] == old(buf[i - n])
      ensures forall i | 0 <= i < index :: buf[i] == old(buf[i])
    {
      forall i | 0 <= i < length - index {
        buf[index + n + i] := buf[index + i];
      }
    }

    /** ixml_membuf_append_str */
    method AppendStr(str: Bytes)
      requires Valid()
      modifies this, buf
      ensures Valid() && (buf == old(buf) || fresh(buf)) && Contents() == old(Contents()) + str
    {
      ghost var was := Contents();
      var code := Insert(str, length);
      assert was[..|was|] == was && was[|was|..] == [];
    }

    /** ixml_membuf_append: one byte */
    method Append(b: Byte)
      requires Valid()
      modifies this, buf
      ensures Valid() && (buf == old(buf) || fresh(buf)) && Contents() == old(Contents()) + [b]
    {
      AppendStr([b]);
    }
  }
}
