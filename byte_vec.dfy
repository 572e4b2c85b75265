/** The growable byte buffer (`Vec<u8>`) that encryption builds its envelope in. */
module ByteVecs {
  import opened Constants

  /**
   * A `Vec<u8>`: the first `len` cells of `buf` are the contents, `buf.Length` is
   * the capacity. Extending beyond the capacity moves the contents to a larger
   * array, as Rust's amortised growth does.
   */
  class ByteVec {
    var buf: array<byte>
    var len: nat

    ghost predicate Valid()
      reads this
    {
      len <= buf.Length
    }

    /** The bytes the vector holds. */
    function Contents(): seq<byte>
      reads this, buf
      requires Valid()
    {
      buf[..len]
    }

    /** How many bytes fit before the vector must reallocate. */
    function Capacity(): nat
      reads this
    {
      buf.Length
    }

    /** `Vec::with_capacity(capacity)`. */
    constructor WithCapacity(capacity: nat)
      ensures Valid() && fresh(buf)
      ensures Contents() == [] && Capacity() == capacity
    {
      buf := new byte[capacity];
      len := 0;
    }

    /**
     * `extend_from_slice(s)`: appends `s`. The buffer stays where it is whenever
     * the new contents fit the current capacity.
     */
    method ExtendFromSlice(s: seq<byte>)
      requires Valid()
      modifies this, buf
      ensures Valid() && Contents() == old(Contents()) + s
      ensures old(len) + |s| <= old(Capacity()) ==> buf == old(buf)
      ensures buf == old(buf) || fresh(buf)
      ensures Capacity() >= old(Capacity())
    {
      if len + |s| > buf.Length {
        var grown := if 2 * buf.Length >= len + |s| then 2 * buf.Length else len + |s|;
        var moved := new byte[grown];
        forall i | 0 <= i < len {
          moved[i] := buf[i];
        }
        buf := moved;
      }
      forall i | 0 <= i < |s| {
        buf[len + i] := s[i];
      }
      len := len + |s|;
    }
  }
}
