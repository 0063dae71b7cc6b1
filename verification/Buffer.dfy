/**
 A buffer of bytes which grows as it is written, and the cursors over it
 (libopendmi/src/buffer.c, libopendmi/src/reader.c, libopendmi/src/writer.c).
 */
module Buffers {
  import opened Wrappers
  import opened Bytes

  /** Bytes written over a sequence, the ones between its end and them zeros. */
  function Overwritten(s: seq<Byte>, offset: nat, data: seq<Byte>): (r: seq<Byte>)
    ensures |r| == if data == [] then |s| else Max(|s|, offset + |data|)
  {
    if data == [] then s
    else
      var wide := Widened(s, offset + |data|);
      wide[..offset] + data + wide[offset + |data|..]
  }

  function Widened(s: seq<Byte>, length: nat): (r: seq<Byte>)
    ensures |r| == Max(|s|, length) && s <= r
  {
    if length <= |s| then s else s + Zeros(length - |s|)
  }

  lemma AppendedIsConcat(s: seq<Byte>, data: seq<Byte>)
    ensures Overwritten(s, |s|, data) == s + data
  {
  }

  lemma Spliced(wide: seq<Byte>, offset: nat, data: seq<Byte>, r: seq<Byte>)
    requires offset + |data| <= |wide| == |r|
    requires forall i | 0 <= i < |r| :: r[i] == if offset <= i < offset + |data| then data[i - offset] else wide[i]
    ensures r == wide[..offset] + data + wide[offset + |data|..]
  {
  }

  const CAPACITY_STEP: nat := 128

  class Buffer {
    var data: array<Byte>
    var length: nat

    ghost predicate Valid()
      reads this
    {
      length <= data.Length && data.Length % CAPACITY_STEP == 0
    }

    ghost function Contents(): (s: seq<Byte>)
      requires Valid()
      reads this, data
      ensures |s| == length
    {
      data[..length]
    }

    constructor ()
      ensures Valid() && fresh(data) && Contents() == []
    {
      data := new Byte[0];
      length := 0;
    }

    /** Room for as many bytes; it grows by whole steps. */
    method Reserve(capacity: nat)
      requires Valid()
      modifies this`data
      ensures Valid() && (data == old(data) || fresh(data))
      ensures Contents() == old(Contents()) && data.Length >= capacity
      ensures capacity <= old(data.Length) ==> data == old(data)
      ensures capacity > old(data.Length) ==> data.Length < capacity + CAPACITY_STEP
    {
      if capacity <= data.Length {
        return;
      }
      var steps := capacity / CAPACITY_STEP;
      if capacity % CAPACITY_STEP != 0 {
        steps := steps + 1;
      }
      var wider := new Byte[steps * CAPACITY_STEP];
      forall i | 0 <= i < length {
        wider[i] := data[i];
      }
      assert wider[..length] == data[..length];
      data := wider;
    }

    /** Bytes gained are zeros, and bytes dropped do not come back. */
    method Resize(size: nat)
      requires Valid()
      modifies this, data
      ensures Valid() && (data == old(data) || fresh(data))
      ensures Contents() == if size <= old(length) then old(Contents())[..size] else Widened(old(Contents()), size)
    {
      if size > length {
        Reserve(size);
        forall i | length <= i < size {
          data[i] := 0;
        }
      }
      length := size;
    }

    method Read(offset: nat, count: nat) returns (ok: bool, bytes: seq<Byte>)
      requires Valid()
      ensures ok <==> offset + count <= length
      ensures ok ==> bytes == Contents()[offset..offset + count]
      ensures !ok ==> bytes == []
    {
      if offset > length || count > length - offset {
        return false, [];
      }
      return true, data[offset..offset + count];
    }

    method Write(offset: nat, bytes: seq<Byte>)
      requires Valid()
      modifies this, data
      ensures Valid() && (data == old(data) || fresh(data))
      ensures Contents() == Overwritten(old(Contents()), offset, bytes)
    {
      if bytes == [] {
        return;
      }
      if offset + |bytes| > length {
        Resize(offset + |bytes|);
      }
      ghost var wide := Contents();
      forall i | 0 <= i < |bytes| {
        data[offset + i] := bytes[i];
      }
      Spliced(wide, offset, bytes, Contents());
    }

    method Clear()
      requires Valid()
      modifies this`length
      ensures Valid() && Contents() == []
    {
      length := 0;
    }
  }

  /** Where a cursor has been. */
  datatype Mark = Mark(buffer: Buffer, base: nat, position: nat)

  /** A cursor over a range of a buffer. */
  class Reader {
    const buffer: Buffer
    const base: nat
    ghost const extent: nat
    var length: nat
    var position: nat

    ghost predicate Valid()
      reads this, buffer
    {
      && buffer.Valid() && base + extent <= buffer.length
      && position <= length <= extent
    }

    /** Bytes of the range the reader has been made over. */
    ghost function Range(): (s: seq<Byte>)
      requires Valid()
      reads this, buffer, buffer.data
      ensures |s| == extent
    {
      buffer.Contents()[base..base + extent]
    }

    /** The range is required to be there in the first place. */
    constructor (buffer: Buffer, offset: nat, length: nat)
      requires buffer.Valid() && offset + length <= buffer.length
      ensures Valid() && this.buffer == buffer && base == offset && extent == length
      ensures position == 0 && this.length == length
    {
      this.buffer := buffer;
      base := offset;
      extent := length;
      this.length := length;
      position := 0;
    }

    function Remaining(): (n: nat)
      requires Valid()
      reads this, buffer
      ensures position + n == length
    {
      length - position
    }

    /** No sum of a position and a length is needed to tell that a range is there. */
    predicate Reaches(from: nat, count: nat)
      reads this
      ensures Reaches(from, count) <==> from + count <= length
    {
      count <= length && from <= length - count
    }

    method Seek(target: nat) returns (ok: bool)
      requires Valid()
      modifies this`position
      ensures Valid() && (ok <==> target <= length)
      ensures position == if ok then target else old(position)
    {
      if target > length {
        return false;
      }
      position := target;
      return true;
    }

    method GetBytesAt(offset: nat, count: nat) returns (ok: bool, bytes: seq<Byte>)
      requires Valid()
      ensures ok <==> offset + count <= length
      ensures ok ==> bytes == Range()[offset..offset + count]
    {
      if !Reaches(offset, count) {
        return false, [];
      }
      ok, bytes := buffer.Read(base + offset, count);
    }

    method GetBytes(count: nat) returns (ok: bool, bytes: seq<Byte>)
      requires Valid()
      modifies this`position
      ensures Valid() && (ok <==> old(position) + count <= length)
      ensures ok ==> bytes == Range()[old(position)..old(position) + count]
      ensures position == if ok then old(position) + count else old(position)
    {
      ok, bytes := GetBytesAt(position, count);
      if ok {
        position := position + count;
      }
    }

    method Advance(from: nat, count: nat) returns (ok: bool)
      requires Valid()
      modifies this`position
      ensures Valid() && (ok <==> from + count <= length)
      ensures position == if ok then from + count else old(position)
    {
      if !Reaches(from, count) {
        return false;
      }
      position := from + count;
      return true;
    }

    method Skip(count: nat) returns (ok: bool)
      requires Valid()
      modifies this`position
      ensures Valid() && (ok <==> old(position) + count <= length)
      ensures position == if ok then old(position) + count else old(position)
    {
      ok := Advance(position, count);
    }

    function MarkHere(): (m: Mark)
      reads this
      ensures m.position == position
    {
      Mark(buffer, base, position)
    }

    /** Marks of another range are refused. */
    method SkipFrom(mark: Mark, count: nat) returns (ok: bool)
      requires Valid()
      modifies this`position
      ensures Valid() && (ok <==> mark.buffer == buffer && mark.base == base && mark.position + count <= length)
      ensures position == if ok then mark.position + count else old(position)
    {
      if mark.buffer != buffer || mark.base != base {
        return false;
      }
      ok := Advance(mark.position, count);
    }

    /** Going back to a mark undoes whatever has been read since. */
    method Rewind(mark: Mark) returns (ok: bool)
      requires Valid()
      modifies this`position
      ensures Valid() && (ok <==> mark.buffer == buffer && mark.base == base && mark.position <= length)
      ensures position == if ok then mark.position else old(position)
    {
      ok := SkipFrom(mark, 0);
    }
  }

  /** A cursor writing over a range of a buffer, or on to its end for a range of no bound. */
  class Writer {
    const buffer: Buffer
    const base: nat
    const bound: Option<nat>
    var position: nat

    ghost predicate Valid()
      reads this, buffer
    {
      && buffer.Valid() && base <= buffer.length
      && position <= Reach() && (bound.Some? ==> position <= bound.value)
    }

    /** Bytes of the buffer the range holds. */
    ghost function Written(): (s: seq<Byte>)
      requires Valid()
      reads this, buffer, buffer.data
    {
      buffer.Contents()[base..base + position]
    }

    constructor (buffer: Buffer, offset: nat, bound: Option<nat>)
      requires buffer.Valid() && offset <= buffer.length
      ensures Valid() && this.buffer == buffer && base == offset && this.bound == bound && position == 0
    {
      this.buffer := buffer;
      base := offset;
      this.bound := bound;
      position := 0;
    }

    function Reach(): (n: nat)
      reads this, buffer
    {
      var length := if buffer.length > base then buffer.length - base else 0;
      if bound.Some? && length > bound.value then bound.value else length
    }

    predicate Fits(offset: nat, count: nat)
      reads this
      ensures Fits(offset, count) <==> (bound.Some? ==> offset + count <= bound.value)
    {
      bound.None? || (count <= bound.value && offset <= bound.value - count)
    }

    method PutBytesAt(bytes: seq<Byte>, offset: nat) returns (ok: bool)
      requires Valid()
      modifies buffer, buffer.data
      ensures Valid() && (buffer.data == old(buffer.data) || fresh(buffer.data))
      ensures ok <==> Fits(offset, |bytes|)
      ensures buffer.Contents() ==
        if ok then Overwritten(old(buffer.Contents()), base + offset, bytes) else old(buffer.Contents())
    {
      if !Fits(offset, |bytes|) {
        return false;
      }
      buffer.Write(base + offset, bytes);
      return true;
    }

    method PutBytes(bytes: seq<Byte>) returns (ok: bool)
      requires Valid()
      modifies this, buffer, buffer.data
      ensures Valid() && (buffer.data == old(buffer.data) || fresh(buffer.data))
      ensures ok <==> Fits(old(position), |bytes|)
      ensures position == if ok then old(position) + |bytes| else old(position)
      ensures buffer.Contents() ==
        if ok then Overwritten(old(buffer.Contents()), base + old(position), bytes) else old(buffer.Contents())
    {
      ok := PutBytesAt(bytes, position);
      if ok {
        position := position + |bytes|;
      }
    }

    /** Bytes which are there are stepped over, and only the ones past the data are made up. */
    method Skip(count: nat) returns (ok: bool)
      requires Valid()
      modifies this, buffer, buffer.data
      ensures Valid() && (buffer.data == old(buffer.data) || fresh(buffer.data))
      ensures ok <==> Fits(old(position), count)
      ensures position == if ok then old(position) + count else old(position)
      ensures buffer.Contents() ==
        if ok then Widened(old(buffer.Contents()), base + position) else old(buffer.Contents())
    {
      if !Fits(position, count) {
        return false;
      }
      var end := position + count;
      if end > Reach() {
        buffer.Resize(base + end);
      }
      position := end;
      return true;
    }

    /** A record longer than its own length cannot be padded out. */
    method SkipFrom(mark: Mark, count: nat) returns (ok: bool)
      requires Valid()
      modifies this, buffer, buffer.data
      ensures Valid() && (buffer.data == old(buffer.data) || fresh(buffer.data))
      ensures ok <==> mark.buffer == buffer && mark.base == base
                      && old(position) <= mark.position + count && Fits(mark.position, count)
      ensures position == if ok then mark.position + count else old(position)
      ensures buffer.Contents() ==
        if ok then Widened(old(buffer.Contents()), base + position) else old(buffer.Contents())
    {
      if mark.buffer != buffer || mark.base != base {
        return false;
      }
      var end := mark.position + count;
      if end < position {
        return false;
      }
      ok := Skip(end - position);
    }
  }
}
