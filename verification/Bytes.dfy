/** Fixed-width integers of the sources: their ranges are explicit, their arithmetic is not bounded. */
module Bytes {
  type byte = x: int | 0 <= x < 256

  const U64_LIMIT: nat := 0x1_0000_0000_0000_0000
  type u64 = x: int | 0 <= x < U64_LIMIT

  datatype Option<+T> = None | Some(value: T)

  function Trunc8(x: nat): byte {
    x % 256
  }

  /** The text `text`, a byte a character, is at address `at`. */
  ghost predicate BytesAt(s: seq<byte>, at: nat, text: string) {
    at + |text| <= |s| && forall k :: 0 <= k < |text| ==> s[at + k] == text[k] as int
  }

  /** Four bytes, least significant first. */
  function Le32(x: nat): (b: seq<byte>)
    ensures |b| == 4
  {
    [Trunc8(x), Trunc8(x / 0x100), Trunc8(x / 0x1_0000), Trunc8(x / 0x100_0000)]
  }

  function ReadLe32(b: seq<byte>): nat
    requires |b| >= 4
  {
    b[0] as int + 0x100 * b[1] as int + 0x1_0000 * b[2] as int + 0x100_0000 * b[3] as int
  }

  /** A 32-bit value survives its four bytes. */
  lemma Le32RoundTrip(x: nat)
    requires x < 0x1_0000_0000
    ensures ReadLe32(Le32(x)) == x
  {
    assert x / 0x100 / 0x100 == x / 0x1_0000;
    assert x / 0x1_0000 / 0x100 == x / 0x100_0000;
  }
}
