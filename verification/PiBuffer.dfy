/** The growing byte buffer `pi_buffer_t` of libpisock/pi-buffer.c. Allocation always succeeds. */
module PiBuffer {
  import opened Bytes

  class Buffer {
    var data: array<byte>
    var used: nat

    /** `allocated` is `data.Length`. */
    ghost predicate Valid()
      reads this, data
    {
      used <= data.Length
    }

    ghost function Contents(): seq<byte>
      requires Valid()
      reads this, data
    {
      data[..used]
    }

    /** `pi_buffer_new` */
    constructor (capacity: nat)
      ensures Valid() && fresh(data) && Contents() == []
      ensures data.Length == if capacity == 0 then 16 else capacity
    {
      data := new byte[if capacity == 0 then 16 else capacity];
      used := 0;
    }

    /** `pi_buffer_expect`: nothing moves, but the block has room for `room` more bytes. */
    method Expect(room: nat)
      requires Valid()
      modifies this`data
      ensures Valid() && used + room <= data.Length
      ensures data == old(data) || fresh(data)
      ensures old(data.Length) <= data.Length && data[..old(data.Length)] == old(data[..])
      ensures data.Length <= old(data.Length) || data.Length == used + room
    {
      if data.Length - used >= room {
        return;
      }
      var grown := new byte[used + room];
      var length := data.Length;
      for i := 0 to length
        invariant data == old(data) && grown[..i] == data[..i] == old(data[..])[..i]
      {
        grown[i] := data[i];
      }
      assert grown[..data.Length] == data[..];
      data := grown;
    }

    /** `memcpy` into the block, inside what is allocated. */
    method Store(at: nat, src: seq<byte>)
      requires Valid() && at + |src| <= data.Length
      modifies data
      ensures data[..] == Overlay(old(data[..]), at, src)
    {
      ghost var before := data[..];
      for i := 0 to |src|
        invariant data[..at] == before[..at] && data[at..at + i] == src[..i]
        invariant data[at + i..] == before[at + i..]
      {
        data[at + i] := src[i];
      }
      assert data[..] == data[..at] + data[at..at + |src|] + data[at + |src|..];
    }

    /** `pi_buffer_append`: the copy lands behind the used bytes and overwrites what the block held there. */
    method Append(src: seq<byte>)
      requires Valid()
      modifies this, data
      ensures Valid() && used == old(used) + |src|
      ensures data == old(data) || fresh(data)
      ensures data[..] == Overlay(old(data[..]), old(used), src)
      ensures Contents() == old(Contents()) + src
    {
      Expect(|src|);
      ghost var before := data[..];
      Store(used, src);
      used := used + |src|;
      assert data[..used] == before[..used - |src|] + src;
    }

    /** `pi_buffer_clear`: a block of more than 65535 bytes is cut down. */
    method Clear()
      requires Valid()
      modifies this
      ensures Valid() && Contents() == []
      ensures data == old(data) || fresh(data)
      ensures data.Length == if old(data.Length) > 65535 then 65535 else old(data.Length)
    {
      used := 0;
      if data.Length > 65535 {
        data := new byte[65535];
      }
    }
  }
}
