/** Machine integers, big-endian words and lists of byte strings. */
module Bytes {
  type byte = x: int | 0 <= x < 0x100
  type u16 = x: int | 0 <= x < 0x1_0000
  type u32 = x: int | 0 <= x < 0x1_0000_0000

  datatype Option<+T> = None | Some(value: T)
  datatype Result<+T, +E> = Ok(value: T) | Err(error: E)

  /** `n as u8` */
  function LowU8(n: nat): byte { n % 0x100 }

  /** `n as u16` */
  function LowU16(n: nat): u16 { n % 0x1_0000 }

  /** 2^32 */
  const WORD := 0x1_0000_0000

  /** `a.wrapping_add(b)` on 32-bit words */
  function WrappingAdd(a: u32, b: u32): u32 { (a + b) % WORD }

  function Min(a: nat, b: nat): nat { if a <= b then a else b }

  /** `u16::to_be_bytes` */
  function Be16(n: u16): (s: seq<byte>)
    ensures |s| == 2
  {
    [n / 0x100, n % 0x100]
  }

  /** `u16::from_be_bytes` */
  function FromBe16(hi: byte, lo: byte): u16 { hi * 0x100 + lo }

  lemma Be16RoundTrip(n: u16)
    ensures FromBe16(Be16(n)[0], Be16(n)[1]) == n
  {}

  lemma ReadBe16(n: u16, rest: seq<byte>)
    ensures var s := Be16(n) + rest; FromBe16(s[0], s[1]) == n && s[2..] == rest
  {
    Be16RoundTrip(n);
  }

  lemma FromBe16RoundTrip(hi: byte, lo: byte)
    ensures Be16(FromBe16(hi, lo)) == [hi, lo]
  {}

  /** A host of any length, then a port. */
  lemma JoinAtPort(s: seq<byte>, head: seq<byte>, port: u16, rest: seq<byte>)
    requires s == head + Be16(port) + rest
    ensures |s| >= |head| + 2
    ensures s[..|head|] == head && s[|head| + 2..] == rest
    ensures FromBe16(s[|head|], s[|head| + 1]) == port
  {
    Be16RoundTrip(port);
  }

  /** `n` bytes, a port, and the rest. */
  lemma SplitAtPort(s: seq<byte>, n: nat)
    requires |s| >= n + 2
    ensures s == s[..n] + Be16(FromBe16(s[n], s[n + 1])) + s[n + 2..]
  {
    FromBe16RoundTrip(s[n], s[n + 1]);
  }

  /** `u32::from_be_bytes` */
  function FromBe32(o: seq<byte>): u32
    requires |o| == 4
  {
    var a: int, b: int, c: int, d: int := o[0], o[1], o[2], o[3];
    a * 0x100_0000 + b * 0x1_0000 + c * 0x100 + d
  }

  lemma FromBe32Injective(a: seq<byte>, b: seq<byte>)
    requires |a| == |b| == 4 && FromBe32(a) == FromBe32(b)
    ensures a == b
  {
    assert a[0] == b[0] && a[1] == b[1] && a[2] == b[2] && a[3] == b[3];
  }

  lemma Assoc(a: seq<byte>, b: seq<byte>, c: seq<byte>)
    ensures a + b + c == a + (b + c)
  {}

  lemma Middle(a: seq<byte>, b: seq<byte>, c: seq<byte>)
    ensures var w := a + (b + c); w[|a|..|a| + |b|] == b && w[|a| + |b|..] == c
  {}

  lemma DropJoin(a: seq<byte>, b: seq<byte>, n: nat)
    requires n <= |a|
    ensures (a + b)[n..] == a[n..] + b
  {}

  /** The byte strings of `parts`, one after the other. */
  function Concat(parts: seq<seq<byte>>): (s: seq<byte>)
  {
    if parts == [] then [] else parts[0] + Concat(parts[1..])
  }

  lemma {:induction false} ConcatAppend(a: seq<seq<byte>>, b: seq<seq<byte>>)
    ensures Concat(a + b) == Concat(a) + Concat(b)
  {
    if a == [] {
      assert a + b == b;
    } else {
      ConcatAppend(a[1..], b);
      assert (a + b)[1..] == a[1..] + b;
      assert (a + b)[0] == a[0];
    }
  }

  lemma ConcatSnoc(a: seq<seq<byte>>, x: seq<byte>)
    ensures Concat(a + [x]) == Concat(a) + x
  {
    ConcatAppend(a, [x]);
    assert [x][1..] == [];
    assert Concat([x]) == x + Concat([]);
  }
}
