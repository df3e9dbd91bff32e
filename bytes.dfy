/** Byte strings, sequence concatenation and fixed-width little-endian integers. */
module Bytes {

  newtype byte = x: int | 0 <= x < 256

  type bytes = seq<byte>

  const U32_LIMIT: int := 0x1_0000_0000

  /** The values that struct.pack('<I') accepts. */
  predicate IsU32(n: int) { 0 <= n < U32_LIMIT }

  /** The concatenation of a list of chunks, in order (b''.join). */
  function Concat<T>(chunks: seq<seq<T>>): seq<T>
  {
    if chunks == [] then [] else chunks[0] + Concat(chunks[1..])
  }

  lemma {:induction false} ConcatAppend<T>(a: seq<seq<T>>, b: seq<seq<T>>)
    ensures Concat(a + b) == Concat(a) + Concat(b)
  {
    if a == [] {
      assert a + b == b;
    } else {
      assert (a + b)[1..] == a[1..] + b;
      ConcatAppend(a[1..], b);
    }
  }

  lemma ConcatSnoc<T>(a: seq<seq<T>>, x: seq<T>)
    ensures Concat(a + [x]) == Concat(a) + x
  {
    ConcatAppend(a, [x]);
    assert Concat([x]) == x + Concat([x][1..]);
  }

  /** Concatenation is associative. */
  lemma AppendAssoc<T>(a: seq<T>, b: seq<T>, c: seq<T>)
    ensures (a + b) + c == a + (b + c)
  {
  }

  /** The empty sequence is a left unit of concatenation. */
  lemma AppendEmpty<T>(a: seq<T>)
    ensures [] + a == a
  {
  }

  /** struct.pack('<I'): four bytes, least significant first. */
  function PackU32(n: int): (r: bytes)
    requires IsU32(n)
    ensures |r| == 4
  {
    [(n % 256) as byte, (n / 256 % 256) as byte, (n / 65536 % 256) as byte, (n / 16777216) as byte]
  }

  /** struct.unpack('<I') of four bytes. */
  function UnpackU32(b: bytes): (n: int)
    requires |b| == 4
    ensures IsU32(n)
  {
    b[0] as int + 256 * b[1] as int + 65536 * b[2] as int + 16777216 * b[3] as int
  }

  /** Unpacking a packed value gives the value back. */
  lemma UnpackPackU32(n: int)
    requires IsU32(n)
    ensures UnpackU32(PackU32(n)) == n
  {
    var b := PackU32(n);
    assert n == n % 256 + 256 * (n / 256);
    assert n / 256 == n / 256 % 256 + 256 * (n / 65536);
    assert n / 65536 == n / 65536 % 256 + 256 * (n / 16777216);
  }
}
