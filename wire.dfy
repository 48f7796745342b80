/** Fixed-width integers as they appear on the wire, their little-endian
    byte encoding, and the clamped read of an in-memory byte stream. */
module Wire {

  type byte = x: int | 0 <= x < 0x100
  /** An unsigned 32-bit value (struct format code `L` with `<`). */
  type u32 = x: int | 0 <= x < 0x1_0000_0000
  /** A signed 32-bit value (struct format code `i`). */
  type i32 = x: int | -0x8000_0000 <= x < 0x8000_0000

  /** The value of four bytes read least significant first. */
  function LeU32(b: seq<byte>): (v: u32)
    requires |b| == 4
  {
    b[0] as int + 0x100 * b[1] as int + 0x1_0000 * b[2] as int + 0x100_0000 * b[3] as int
  }

  /** The four bytes, least significant first, that encode `v`. */
  function LeBytes(v: u32): (b: seq<byte>)
    ensures |b| == 4
  {
    [v % 0x100, v / 0x100 % 0x100, v / 0x1_0000 % 0x100, v / 0x100_0000]
  }

  /** Two's-complement reinterpretation of an unsigned word as signed. */
  function AsSigned(u: u32): (x: i32)
    ensures 0 <= x ==> x == u
    ensures x < 0 ==> x == u - 0x1_0000_0000
  {
    if u < 0x8000_0000 then u else u - 0x1_0000_0000
  }

  /** Two's-complement reinterpretation of a signed word as unsigned. */
  function AsUnsigned(x: i32): (u: u32)
    ensures 0 <= x ==> u == x
    ensures x < 0 ==> u == x + 0x1_0000_0000
  {
    if 0 <= x then x else x + 0x1_0000_0000
  }

  lemma LeBytesDecode(v: u32)
    ensures LeU32(LeBytes(v)) == v
  {
    var b := LeBytes(v);
    assert v == v % 0x100 + 0x100 * (v / 0x100);
    assert v / 0x100 == v / 0x100 % 0x100 + 0x100 * (v / 0x1_0000);
    assert v / 0x1_0000 == v / 0x1_0000 % 0x100 + 0x100 * (v / 0x100_0000);
  }

  lemma LeU32Encode(b: seq<byte>)
    requires |b| == 4
    ensures LeBytes(LeU32(b)) == b
  {
    var v := LeU32(b);
    assert v / 0x100 == b[1] as int + 0x100 * b[2] as int + 0x1_0000 * b[3] as int;
    assert v / 0x1_0000 == b[2] as int + 0x100 * b[3] as int;
    assert v / 0x100_0000 == b[3];
  }

  /** The two reinterpretations are inverse bijections. */
  lemma SignedRoundTrip(x: i32, u: u32)
    ensures AsSigned(AsUnsigned(x)) == x
    ensures AsUnsigned(AsSigned(u)) == u
  {
  }

  /** What `read(n)` on an in-memory stream positioned at `pos` returns, with
      the position it leaves behind: `n` bytes if that many remain, otherwise
      whatever is left; a negative `n` reads to the end. Never fails. */
  function Read(buf: seq<byte>, pos: nat, n: int): (r: (seq<byte>, nat))
    requires pos <= |buf|
    ensures pos <= r.1 <= |buf| && r.0 == buf[pos..r.1]
    ensures 0 <= n <= |buf| - pos ==> r.1 == pos + n
    ensures (n < 0 || |buf| - pos < n) ==> r.1 == |buf|
  {
    if n < 0 || |buf| - pos < n then (buf[pos..], |buf|)
    else (buf[pos..pos + n], pos + n)
  }
}
