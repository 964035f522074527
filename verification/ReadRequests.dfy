/** How a read() of the mounted file becomes a chunk: src/fuse_methods/read.c, with the 32-bit cast
    written out, and the asserts that meet the chunk in src/downloader/downloader.c. */
module ReadRequests {

  const TWO_32 := 0x1_0000_0000
  const TWO_31 := 0x8000_0000

  // The size that is asked of the downloader.
  function Clamped(off: nat, size: nat, length: nat): nat {
    if off >= length then 0
    else if (off + size) % TWO_32 >= length then length - off
    else size
  }

  // The downloader's asserts on the range [off, off + clamped).
  predicate Accepted(off: nat, size: nat, length: nat) {
    off <= length && off + Clamped(off, size, length) <= length
  }

  function Min(a: int, b: int): (m: int)
    ensures m <= a && m <= b && (m == a || m == b)
  {
    if a <= b then a else b
  }

  // Exactly which requests get past the asserts.
  lemma AcceptedExactly(off: nat, size: nat, length: nat)
    ensures Accepted(off, size, length)
       <==> off == length || (off < length && (off + size <= length || (off + size) % TWO_32 >= length))
  {
    if off < length && off + size < length {
      WrapIsSmaller(off + size);
    }
  }

  lemma WrapIsSmaller(n: nat)
    ensures n % TWO_32 <= n
  {
    assert n == TWO_32 * (n / TWO_32) + n % TWO_32;
  }

  // An accepted request asks for precisely the bytes of the range that exist.
  lemma AcceptedIsClamped(off: nat, size: nat, length: nat)
    requires Accepted(off, size, length)
    ensures off + Clamped(off, size, length) == Min(off + size, length)
  {
    AcceptedExactly(off, size, length);
    if off < length && off + size < length {
      WrapIsSmaller(off + size);
    }
  }

  // In particular every request inside the file whose end fits 32 bits is accepted.
  lemma SmallRequestsAccepted(off: nat, size: nat, length: nat)
    requires off <= length && off + size < TWO_32
    ensures Accepted(off, size, length)
  {
    AcceptedExactly(off, size, length);
  }

  // Reading past the end is not accepted, nor is a read over the end of a file that goes a little past 4 GiB.
  lemma RejectedExamples()
    ensures !Accepted(11, 0, 10)
    ensures !Accepted(TWO_32, 131072, TWO_32 + 5)
  {
  }

  // The conversion of an off_t to the int key of the heap.
  function Int32(n: nat): int {
    (n + TWO_31) % TWO_32 - TWO_31
  }

  // It is the 32-bit number that differs from the offset by a multiple of 2^32: the offset itself exactly below 2^31.
  lemma Int32Exactly(n: nat)
    ensures -0x8000_0000 <= Int32(n) < 0x8000_0000 && (n - Int32(n)) % 0x1_0000_0000 == 0
    ensures Int32(n) == n <==> n < 0x8000_0000
  {
    var m := n + TWO_31;
    assert n - Int32(n) == m - m % TWO_32 + TWO_32 - TWO_32 == TWO_32 * (m / TWO_32);
    assert (TWO_32 * (m / TWO_32)) % TWO_32 == 0;
  }
}
