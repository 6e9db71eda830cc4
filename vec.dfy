/** The growable byte buffer the driver reuses for each of a record's four
    lines (Rust's `Vec<u8>`): an array whose first `len` bytes are the
    contents, so that clearing keeps the capacity. */
module Vec {
  import opened Bytes

  class ByteVec {
    var data: array<byte>
    var len: nat

    ghost predicate Valid()
      reads this
    {
      len <= data.Length
    }

    /** The bytes the vector holds. */
    function Contents(): seq<byte>
      reads this, data
      requires Valid()
    {
      data[..len]
    }

    /** `Vec::with_capacity`. */
    constructor WithCapacity(capacity: nat)
      ensures Valid() && fresh(data)
      ensures Contents() == [] && data.Length == capacity
    {
      data := new byte[capacity];
      len := 0;
    }

    /** `Vec::clear`: the length drops to zero and the storage is kept. */
    method Clear()
      requires Valid()
      modifies this`len
      ensures Valid() && Contents() == []
    {
      len := 0;
    }

    /** `Vec::extend_from_slice`: appends `s`, moving to larger storage when
        the current storage is too small. */
    method ExtendFromSlice(s: seq<byte>)
      requires Valid()
      modifies this, data
      ensures Valid()
      ensures Contents() == old(Contents()) + s
      ensures data == old(data) || fresh(data)
    {
      if data.Length < len + |s| {
        var grown := new byte[if 2 * data.Length < len + |s| then len + |s| else 2 * data.Length];
        forall k | 0 <= k < len {
          grown[k] := data[k];
        }
        data := grown;
      }
      forall k | 0 <= k < |s| {
        data[len + k] := s[k];
      }
      len := len + |s|;
    }
  }
}
