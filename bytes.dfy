/**
 * Bytes, Python's `bytearray`, and the 4-byte unsigned integer that
 * `struct.pack('I', n)` writes. Native byte order and size are taken to be
 * those of the usual host: little-endian, 4 bytes, no padding for a single
 * item.
 */
module Bytes {

  newtype byte = x: int | 0 <= x < 256

  /** One more than the largest value `struct.pack('I', …)` accepts. */
  const U32Bound: int := 0x1_0000_0000

  /** The four bytes `struct.pack('I', n)` produces, least significant first. */
  function U32(n: nat): (r: seq<byte>)
    requires n < U32Bound
    ensures |r| == 4
  {
    [(n % 256) as byte, (n / 256 % 256) as byte, (n / 256 / 256 % 256) as byte, (n / 256 / 256 / 256) as byte]
  }

  /** The unsigned little-endian integer held in the first four bytes of `b`. */
  function ReadU32(b: seq<byte>): (n: nat)
    requires |b| >= 4
    ensures n < U32Bound
  {
    b[0] as int + 256 * (b[1] as int + 256 * (b[2] as int + 256 * b[3] as int))
  }

  /** Reading back a packed count yields the count, whatever follows it. */
  lemma ReadU32OfU32(n: nat, rest: seq<byte>)
    requires n < U32Bound
    ensures ReadU32(U32(n) + rest) == n
  {
    var b := U32(n) + rest;
    assert b[0] as int == n % 256 && b[1] as int == n / 256 % 256;
    assert b[2] as int == n / 256 / 256 % 256 && b[3] as int == n / 256 / 256 / 256;
  }

  /** Two packed counts are equal exactly when the counts are. */
  lemma U32Injective(m: nat, n: nat)
    requires m < U32Bound && n < U32Bound
    ensures U32(m) == U32(n) <==> m == n
  {
    if U32(m) == U32(n) {
      ReadU32OfU32(m, []);
      ReadU32OfU32(n, []);
      assert U32(m) + [] == U32(n) + [];
    }
  }

  /** Python's `bytearray`: a byte string that `extend` grows in place. */
  class ByteArray {
    var data: seq<byte>

    constructor ()
      ensures data == []
    {
      data := [];
    }

    /** `bytearray.extend`: append `b`, leaving what was there as a prefix. */
    method Extend(b: seq<byte>)
      modifies this
      ensures data == old(data) + b
    {
      data := data + b;
    }
  }
}
