/** The growable byte cursor of the `bytes` crate: writers append, readers consume the front. */
module Buffers {
  import opened Bytes

  class BytesMut {
    var data: seq<byte>

    constructor ()
      ensures data == []
    {
      data := [];
    }

    constructor From(s: seq<byte>)
      ensures data == s
    {
      data := s;
    }

    method PutU8(b: byte)
      modifies this
      ensures data == old(data) + [b]
    {
      data := data + [b];
    }

    method PutU16(n: u16)
      modifies this
      ensures data == old(data) + Be16(n)
    {
      data := data + Be16(n);
    }

    method PutSlice(s: seq<byte>)
      modifies this
      ensures data == old(data) + s
    {
      data := data + s;
    }

    method GetU8() returns (b: byte)
      requires |data| >= 1
      modifies this
      ensures [b] + data == old(data)
    {
      b, data := data[0], data[1..];
    }

    method GetU16() returns (n: u16)
      requires |data| >= 2
      modifies this
      ensures n == FromBe16(old(data)[0], old(data)[1]) && data == old(data)[2..]
    {
      n := FromBe16(data[0], data[1]);
      data := data[2..];
    }

    method CopyToBytes(n: nat) returns (s: seq<byte>)
      requires |data| >= n
      modifies this
      ensures |s| == n && s + data == old(data)
    {
      s, data := data[..n], data[n..];
    }
  }
}
