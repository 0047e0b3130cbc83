/** The byte buffer that crosses the foreign-function boundary: a builder that grows it and
    a stream that reads it. */
module RustBuffer {
  import opened Wrappers
  import opened Bytes

  datatype ReadError =
    | PastEnd
    | NegativeLength
    | UnexpectedFlag
    | UnknownVariant
    | InvalidUtf8
    | JunkLeft

  /** What a reader makes of a byte sequence: a value and the bytes it leaves unread. */
  type Decoded<T> = Result<(T, Bytes), ReadError>

  const INITIAL_CAPACITY: nat := 16

  class Builder {
    var capacity: nat
    var len: nat
    var data: array<Byte>

    ghost predicate Valid()
      reads this
    {
      data.Length == capacity && len <= capacity
    }

    ghost function Contents(): Bytes
      requires Valid()
      reads this, data
    {
      data[..len]
    }

    constructor ()
      ensures Valid() && fresh(data) && Contents() == []
    {
      capacity, len := INITIAL_CAPACITY, 0;
      data := new Byte[INITIAL_CAPACITY];
    }

    /** `rustbuffer_reserve`, which is Rust's: all that is known is that the buffer it returns
        keeps the bytes in use and has room for `additional` more. */
    method RustReserve(additional: nat)
      requires Valid()
      modifies this
      ensures Valid() && fresh(data) && len == old(len)
      ensures Contents() == old(Contents())
      ensures len + additional <= capacity
    {
      var room: nat :| len + additional <= room;
      var grown := new Byte[room];
      for i := 0 to len
        invariant Valid() && data == old(data) && len == old(len)
        invariant grown[..i] == data[..i]
      {
        grown[i] := data[i];
      }
      capacity, data := grown.Length, grown;
    }

    /** Room for `count` more bytes. */
    method Reserve(count: nat)
      requires Valid()
      modifies this
      ensures Valid() && len == old(len)
      ensures data == old(data) || fresh(data)
      ensures Contents() == old(Contents())
      ensures len + count <= capacity
    {
      if len + count > capacity {
        RustReserve(count);
      }
    }

    method Write(value: Bytes)
      requires Valid()
      modifies this, data
      ensures Valid() && (data == old(data) || fresh(data))
      ensures Contents() == old(Contents()) + value
    {
      Reserve(|value|);
      ghost var before := Contents();
      label Reserved:
      for i := 0 to |value|
        invariant Valid() && data == old@Reserved(data) && len == old@Reserved(len)
        invariant data[..len + i] == before + value[..i]
      {
        data[len + i] := value[i];
      }
      len := len + |value|;
    }
  }

  /** A reader did what `decoded` says: its result, and on success the bytes left. */
  ghost predicate Follows<T>(result: Result<T, ReadError>, left: Bytes, decoded: Decoded<T>) {
    match decoded
    case Ok((value, rest)) => result == Ok(value) && left == rest
    case Err(error) => result == Err(error)
  }

  function DecodeBytes(size: nat, bytes: Bytes): Decoded<Bytes> {
    if size > |bytes| then Err(PastEnd) else Ok((bytes[..size], bytes[size..]))
  }

  class Stream {
    const data: Bytes
    var offset: nat

    ghost predicate Valid()
      reads this
    {
      offset <= |data|
    }

    ghost function Left(): Bytes
      requires Valid()
      reads this
    {
      data[offset..]
    }

    constructor (data: Bytes)
      ensures Valid() && this.data == data && Left() == data
    {
      this.data, offset := data, 0;
    }

    method Remaining() returns (count: nat)
      requires Valid()
      ensures count == |Left()|
    {
      return |data| - offset;
    }

    method Read(size: nat) returns (result: Result<Bytes, ReadError>)
      requires Valid()
      modifies this
      ensures Valid() && Follows(result, Left(), DecodeBytes(size, old(Left())))
      ensures result.Err? ==> offset == old(offset)
    {
      if offset + size > |data| {
        return Err(PastEnd);
      }
      assert data[offset..offset + size] == Left()[..size];
      assert data[offset + size..] == Left()[size..];
      result := Ok(data[offset..offset + size]);
      offset := offset + size;
    }
  }
}
