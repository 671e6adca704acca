/** Octets, the big- and little-endian integers of the wire and file formats, and Python slicing. */
module Bytes {

  type byte = x: int | 0 <= x < 256

  datatype Option<+T> = None | Some(value: T)

  /** `struct.pack(">H", n)`. */
  function Be16(n: int): (s: seq<byte>)
    requires 0 <= n < 0x1_0000
  {
    [n / 256, n % 256]
  }

  /** `struct.unpack(">H", s)`. */
  function FromBe16(s: seq<byte>): (n: int)
    requires |s| == 2
    ensures 0 <= n < 0x1_0000
  {
    s[0] as int * 256 + s[1]
  }

  /** `struct.pack(">I", n)`. */
  function Be32(n: int): (s: seq<byte>)
    requires 0 <= n < 0x1_0000_0000
  {
    [n / 256 / 256 / 256, n / 256 / 256 % 256, n / 256 % 256, n % 256]
  }

  /** `struct.unpack(">I", s)`. */
  function FromBe32(s: seq<byte>): (n: int)
    requires |s| == 4
    ensures 0 <= n < 0x1_0000_0000
  {
    ((s[0] as int * 256 + s[1]) * 256 + s[2]) * 256 + s[3]
  }

  lemma Be16RoundTrip(n: int)
    requires 0 <= n < 0x1_0000
    ensures FromBe16(Be16(n)) == n
  {
  }

  lemma FromBe16Inverse(s: seq<byte>)
    requires |s| == 2
    ensures Be16(FromBe16(s)) == s
  {
  }

  lemma Be32RoundTrip(n: int)
    requires 0 <= n < 0x1_0000_0000
    ensures FromBe32(Be32(n)) == n
  {
  }

  lemma FromBe32Inverse(s: seq<byte>)
    requires |s| == 4
    ensures Be32(FromBe32(s)) == s
  {
    var high := (s[0] as int * 256 + s[1]) * 256 + s[2];
    assert FromBe32(s) / 256 == high && FromBe32(s) % 256 == s[3];
    assert high / 256 == s[0] as int * 256 + s[1] && high % 256 == s[2];
  }

  /** Python's `s[lo:hi]` for non-negative bounds: bounds past the end are cut back to it. */
  function Slice<T>(s: seq<T>, lo: nat, hi: nat): (r: seq<T>)
    ensures |r| <= |s|
  {
    var h := if hi < |s| then hi else |s|;
    if lo < h then s[lo..h] else []
  }

  /** `bytes(n)`. */
  function Zeros(n: nat): (s: seq<byte>)
    ensures |s| == n && forall i :: 0 <= i < n ==> s[i] == 0
  {
    seq(n, _ => 0)
  }

  /** A page with data put at an offset: all of the data or, if it does not fit, none of it. */
  function Patch(page: seq<byte>, offset: nat, data: seq<byte>): (r: seq<byte>)
    ensures |r| == |page|
  {
    if offset + |data| <= |page| then page[..offset] + data + page[offset + |data|..] else page
  }

  lemma PatchAt(page: seq<byte>, offset: nat, data: seq<byte>, at: nat)
    requires at < |page|
    ensures Patch(page, offset, data)[at] ==
      if offset + |data| <= |page| && offset <= at < offset + |data| then data[at - offset] else page[at]
  {
  }

  lemma PatchTwice(page: seq<byte>, offset: nat, a: seq<byte>, b: seq<byte>)
    requires offset + |a| + |b| <= |page|
    ensures Patch(Patch(page, offset, a), offset + |a|, b) == Patch(page, offset, a + b)
  {
  }

  /** Data copied into a buffer in place. */
  method CopyInto(buf: array<byte>, at: nat, data: seq<byte>)
    requires at + |data| <= buf.Length
    modifies buf
    ensures buf[..at + |data|] == old(buf[..at]) + data
    ensures buf[at + |data|..] == old(buf[at + |data|..])
  {
    var i := 0;
    while i < |data|
      invariant 0 <= i <= |data|
      invariant buf[..at] == old(buf[..at])
      invariant buf[at..at + i] == data[..i]
      invariant buf[at + i..] == old(buf[at + i..])
    {
      buf[at + i] := data[i];
      i := i + 1;
    }
    assert buf[..at + i] == buf[..at] + buf[at..at + i];
  }
}
