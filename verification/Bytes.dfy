/** Bytes, byte strings and the big-endian integer codecs both ends share
    (pc/src/frame/protocol.py, device/src/factory_frame.h). */
module Bytes {
  type byte = x: int | 0 <= x < 256
  type bytes = seq<byte>
  type u16 = x: int | 0 <= x < 0x1_0000
  type u32 = x: int | 0 <= x < 0x1_0000_0000

  datatype Result<+T, +E> = Ok(value: T) | Err(error: E)
  datatype Option<+T> = None | Some(value: T)

  /** Two bytes, most significant first. */
  function U16Be(n: u16): (r: bytes)
    ensures |r| == 2
  {
    [n / 256, n % 256]
  }

  /** Four bytes, most significant first. */
  function U32Be(n: u32): (r: bytes)
    ensures |r| == 4
  {
    [n / 0x100_0000, n / 0x1_0000 % 256, n / 0x100 % 256, n % 256]
  }

  function U16At(s: bytes, i: nat): u16
    requires i + 2 <= |s|
  {
    var hi: int, lo: int := s[i], s[i + 1];
    hi * 256 + lo
  }

  function U32At(s: bytes, i: nat): u32
    requires i + 4 <= |s|
  {
    var b3: int, b2: int, b1: int, b0: int := s[i], s[i + 1], s[i + 2], s[i + 3];
    b3 * 0x100_0000 + b2 * 0x1_0000 + b1 * 0x100 + b0
  }

  /** Reading at position `i` and writing the bytes found there are inverse to each other. */
  lemma U16Inverse(s: bytes, i: nat)
    requires i + 2 <= |s|
    ensures s[i..i + 2] == U16Be(U16At(s, i))
  {
  }

  lemma U16RoundTrip(n: u16, s: bytes, i: nat)
    requires i + 2 <= |s| && s[i..i + 2] == U16Be(n)
    ensures U16At(s, i) == n
  {
    assert s[i] == s[i..i + 2][0] && s[i + 1] == s[i..i + 2][1];
  }

  /** Base-256 digits are unique; kept apart from sequences so that the solver sees only integers. */
  lemma Digits256(n: u32, b3: byte, b2: byte, b1: byte, b0: byte)
    ensures n == b3 * 0x100_0000 + b2 * 0x1_0000 + b1 * 0x100 + b0
       <==> b3 == n / 0x100_0000 && b2 == n / 0x1_0000 % 256 && b1 == n / 0x100 % 256 && b0 == n % 256
  {
    var q1 := n / 0x100;
    var q2 := q1 / 0x100;
    var q3 := q2 / 0x100;
    assert q2 == n / 0x1_0000 && q3 == n / 0x100_0000;
    if n == b3 * 0x100_0000 + b2 * 0x1_0000 + b1 * 0x100 + b0 {
      var h1 := b3 * 0x1_0000 + b2 * 0x100 + b1;
      assert n == h1 * 256 + b0;
      assert q1 == h1;
      var h2 := b3 * 0x100 + b2;
      assert h1 == h2 * 256 + b1;
      assert q2 == h2;
      assert q3 == b3;
    }
  }

  lemma U32Inverse(s: bytes, i: nat)
    requires i + 4 <= |s|
    ensures s[i..i + 4] == U32Be(U32At(s, i))
  {
    Digits256(U32At(s, i), s[i], s[i + 1], s[i + 2], s[i + 3]);
  }

  lemma U32RoundTrip(n: u32, s: bytes, i: nat)
    requires i + 4 <= |s| && s[i..i + 4] == U32Be(n)
    ensures U32At(s, i) == n
  {
    var w := s[i..i + 4];
    assert s[i] == w[0] && s[i + 1] == w[1] && s[i + 2] == w[2] && s[i + 3] == w[3];
    Digits256(n, s[i], s[i + 1], s[i + 2], s[i + 3]);
  }

  lemma Associative(a: bytes, b: bytes, c: bytes)
    ensures a + (b + c) == a + b + c
  {
  }

  /** The concatenation of a sequence of byte strings. */
  function Flatten(chunks: seq<bytes>): bytes {
    if chunks == [] then [] else chunks[0] + Flatten(chunks[1..])
  }

  lemma {:induction false} FlattenAppend(a: seq<bytes>, b: seq<bytes>)
    ensures Flatten(a + b) == Flatten(a) + Flatten(b)
  {
    if a == [] {
      assert a + b == b;
    } else {
      assert (a + b)[1..] == a[1..] + b;
      FlattenAppend(a[1..], b);
    }
  }
}
