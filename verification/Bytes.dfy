/** Bytes, and numbers laid out as bytes with the lowest byte first. */
module Bytes {

  type byte = x: int | 0 <= x < 256

  const WORD := 0x1_0000_0000

  /** Byte j of the number x. */
  function ByteOf(x: nat, j: nat): byte {
    if j == 0 then x % 256
    else if j == 1 then x / 0x100 % 256
    else if j == 2 then x / 0x1_0000 % 256
    else x / 0x100_0000 % 256
  }

  /** The 32-bit number stored at offset k. */
  function WordAt(b: seq<byte>, k: nat): (x: nat)
    requires k + 4 <= |b|
    ensures x < WORD
  {
    (b[k] as int) + 0x100 * (b[k + 1] as int) + 0x1_0000 * (b[k + 2] as int) + 0x100_0000 * (b[k + 3] as int)
  }

  /** Four bytes that are the bytes of x store x. */
  lemma WordOfBytes(b: seq<byte>, k: nat, x: nat)
    requires k + 4 <= |b| && x < WORD
    requires b[k] == ByteOf(x, 0) && b[k + 1] == ByteOf(x, 1) && b[k + 2] == ByteOf(x, 2) && b[k + 3] == ByteOf(x, 3)
    ensures WordAt(b, k) == x
  {
    var q1, q2, q3 := x / 0x100, x / 0x1_0000, x / 0x100_0000;
    assert q2 == q1 / 0x100 && q3 == q2 / 0x100 && q3 < 0x100;
  }
}
