/** The growable byte buffer: every operation acts on the contents as a sequence, or fails and leaves them alone. */
module ByteBuffer {
  import opened Common

  const SIZE_MAX := 0xFFFF_FFFF_FFFF_FFFF

  /** `safe_add_size_t`: SIZE_MAX stands for an overflow. */
  function SafeAdd(a: nat, b: nat): (sum: nat)
    requires a <= SIZE_MAX && b <= SIZE_MAX
    ensures sum == if a + b < 0xFFFF_FFFF_FFFF_FFFF then a + b else 0xFFFF_FFFF_FFFF_FFFF
  {
    if a < SIZE_MAX - b then a + b else SIZE_MAX
  }

  /** `malloc`: new memory, with arbitrary contents, or none. */
  method Allocate(size: nat, granted: bool) returns (memory: array?<byte>)
    ensures memory == null <==> !granted
    ensures memory != null ==> fresh(memory) && memory.Length == size
  {
    if !granted {
      return null;
    }
    memory := new byte[size];
  }

  /** `memcpy`. */
  method Copy(target: array<byte>, at: nat, source: array<byte>, from: nat, count: nat)
    requires at + count <= target.Length && from + count <= source.Length && source != target
    modifies target
    ensures target[..] == old(target[..at]) + source[from..from + count] + old(target[at + count..])
  {
    Put(target, at, source[from..from + count]);
    assert target[..] == target[..at + count] + target[at + count..];
  }

  class Buffer {
    var data: array?<byte>
    var size: nat

    ghost predicate Valid()
      reads this, data
    {
      size <= SIZE_MAX && if data == null then size == 0 else size <= data.Length
    }

    ghost function Contents(): (bytes: seq<byte>)
      requires Valid()
      reads this, data
      ensures |bytes| == size
    {
      if data == null then [] else data[..size]
    }

    constructor ()
      ensures Valid() && data == null && Contents() == []
    {
      data, size := null, 0;
    }

    /** `BUFFER_build`. */
    method Build(source: seq<byte>, granted: bool) returns (ok: bool)
      requires Valid() && |source| <= SIZE_MAX
      modifies this
      ensures Valid() && (ok <==> source == [] || granted)
      ensures Contents() == if ok then source else old(Contents())
      ensures data == old(data) || data == null || fresh(data)
    {
      if |source| == 0 {
        data, size := null, 0;
        return true;
      }
      var memory := Allocate(|source|, granted);
      if memory == null {
        return false;
      }
      Put(memory, 0, source);
      data, size := memory, |source|;
      ok := true;
    }

    /** `realloc` of the buffer to a larger size: the bytes held stay in front. */
    method Reallocate(larger: nat, granted: bool) returns (memory: array?<byte>)
      requires Valid() && size <= larger
      ensures memory == null <==> !granted
      ensures memory != null ==> fresh(memory) && memory.Length == larger && Contents() <= memory[..]
    {
      memory := Allocate(larger, granted);
      if memory != null && data != null {
        Copy(memory, 0, data, 0, size);
      }
    }

    /** `BUFFER_append_build`. */
    method AppendBuild(source: seq<byte>, granted: bool) returns (ok: bool)
      requires Valid() && |source| <= SIZE_MAX
      modifies this
      ensures Valid()
      ensures ok <==> source != [] && granted && (old(data) == null || old(size) + |source| < SIZE_MAX)
      ensures Contents() == if ok then old(Contents()) + source else old(Contents())
      ensures data == old(data) || fresh(data)
    {
      if |source| == 0 {
        return false;
      }
      if data == null {
        var memory := Allocate(|source|, granted);
        if memory == null {
          return false;
        }
        Put(memory, 0, source);
        data, size := memory, |source|;
        return true;
      }
      var mallocSize := SafeAdd(size, |source|);
      if mallocSize == SIZE_MAX {
        return false;
      }
      var temp := Reallocate(mallocSize, granted);
      if temp == null {
        return false;
      }
      Put(temp, size, source);
      data, size := temp, size + |source|;
      ok := true;
    }

    /** `BUFFER_pre_build`: room for so many bytes, in a buffer that has no memory yet. */
    method PreBuild(count: nat, granted: bool) returns (ok: bool)
      requires Valid() && count <= SIZE_MAX
      modifies this
      ensures Valid() && (ok <==> count > 0 && old(data) == null && granted)
      ensures if ok then |Contents()| == count && fresh(data) else data == old(data) && Contents() == old(Contents())
    {
      if count == 0 || data != null {
        return false;
      }
      data := Allocate(count, granted);
      if data == null {
        return false;
      }
      size := count;
      ok := true;
    }

    /** `BUFFER_unbuild`. */
    method Unbuild() returns (ok: bool)
      requires Valid()
      modifies this
      ensures Valid() && data == null && Contents() == [] && (ok <==> old(data) != null)
    {
      if data == null {
        return false;
      }
      data, size := null, 0;
      ok := true;
    }

    /** `BUFFER_enlarge`: more room behind the contents. */
    method Enlarge(count: nat, granted: bool) returns (ok: bool)
      requires Valid() && count <= SIZE_MAX
      modifies this
      ensures Valid() && (ok <==> count > 0 && old(size) + count < SIZE_MAX && granted)
      ensures if ok then old(Contents()) <= Contents() && size == old(size) + count && fresh(data)
              else data == old(data) && Contents() == old(Contents())
    {
      if count == 0 {
        return false;
      }
      var mallocSize := SafeAdd(size, count);
      if mallocSize == SIZE_MAX {
        return false;
      }
      var temp := Reallocate(mallocSize, granted);
      if temp == null {
        return false;
      }
      data, size := temp, size + count;
      ok := true;
    }

    /** `BUFFER_shrink`: takes bytes away at one end. */
    method Shrink(count: nat, fromEnd: bool, granted: bool) returns (ok: bool)
      requires Valid()
      modifies this
      ensures Valid() && (ok <==> 0 < count <= old(size) && (count == old(size) || granted))
      ensures Contents() == if !ok then old(Contents())
                            else if fromEnd then old(Contents())[..old(size) - count] else old(Contents())[count..]
      ensures data == old(data) || data == null || fresh(data)
    {
      if count == 0 || count > size {
        return false;
      }
      var allocSize := size - count;
      if allocSize == 0 {
        data, size := null, 0;
        return true;
      }
      var tmp := Allocate(allocSize, granted);
      if tmp == null {
        return false;
      }
      Copy(tmp, 0, data, if fromEnd then 0 else count, allocSize);
      data, size := tmp, allocSize;
      ok := true;
    }

    /** `BUFFER_append`: both buffers must have memory, even if there is nothing in it. */
    method Append(other: Buffer, granted: bool) returns (ok: bool)
      requires Valid() && other.Valid() && (other == this || data == null || data != other.data)
      modifies this
      ensures Valid()
      ensures ok <==>
                && other != this && old(data) != null && other.data != null
                && (other.size == 0 || (old(size) + other.size < SIZE_MAX && granted))
      ensures Contents() == if ok then old(Contents()) + old(other.Contents()) else old(Contents())
      ensures data == old(data) || fresh(data)
    {
      if other == this || data == null || other.data == null {
        return false;
      }
      if other.size == 0 {
        return true;
      }
      var mallocSize := SafeAdd(size, other.size);
      if mallocSize == SIZE_MAX {
        return false;
      }
      var temp := Reallocate(mallocSize, granted);
      if temp == null {
        return false;
      }
      Copy(temp, size, other.data, 0, other.size);
      data, size := temp, size + other.size;
      ok := true;
    }

    /** `BUFFER_prepend`: asks for one byte more than it needs. */
    method Prepend(other: Buffer, granted: bool) returns (ok: bool)
      requires Valid() && other.Valid() && (other == this || data == null || data != other.data)
      modifies this
      ensures Valid()
      ensures ok <==>
                && other != this && old(data) != null && other.data != null
                && (other.size == 0 || (old(size) + other.size + 1 < SIZE_MAX && granted))
      ensures Contents() == if ok then old(other.Contents()) + old(Contents()) else old(Contents())
      ensures data == old(data) || fresh(data)
    {
      if other == this || data == null || other.data == null {
        return false;
      }
      if other.size == 0 {
        return true;
      }
      var mallocSize := SafeAdd(SafeAdd(size, other.size), 1);
      if mallocSize == SIZE_MAX {
        return false;
      }
      var temp := Allocate(mallocSize, granted);
      if temp == null {
        return false;
      }
      Copy(temp, 0, other.data, 0, other.size);
      Copy(temp, other.size, data, 0, size);
      data, size := temp, size + other.size;
      ok := true;
    }

    /** `BUFFER_clone`: memory of its own with the same contents, even for a buffer without memory. */
    method Clone(structGranted: bool, granted: bool) returns (clone: Buffer?)
      requires Valid()
      ensures clone != null <==> structGranted && granted
      ensures clone != null ==> fresh(clone) && clone.Valid() && clone.data != null && fresh(clone.data)
      ensures clone != null ==> clone.Contents() == Contents()
    {
      if !structGranted {
        return null;
      }
      var memory := Allocate(if size == 0 then 1 else size, granted);
      if memory == null {
        return null;
      }
      if data != null {
        Copy(memory, 0, data, 0, size);
      }
      clone := new Buffer();
      clone.data, clone.size := memory, size;
    }
  }
}
