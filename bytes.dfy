/** Bytes and fixed-width unsigned integers as the x86 kernel stores them:
    little-endian, with the C types' widths written out explicitly. */
module Bytes {

  /** An unsigned char. */
  type byte = x: nat | x < 256

  const U16_LIMIT: nat := 0x1_0000
  const U32_LIMIT: nat := 0x1_0000_0000
  const I32_LIMIT: nat := 0x8000_0000

  /** C's uint16_t and uint32_t (Elf32_Half, Elf32_Word, Elf32_Addr, Elf32_Off). */
  type u16 = x: nat | x < U16_LIMIT
  type u32 = x: nat | x < U32_LIMIT

  /** 256 to the power n: the number of values an n-byte field holds. */
  function Pow256(n: nat): (r: nat)
    ensures r >= 1
  {
    if n == 0 then 1 else 256 * Pow256(n - 1)
  }

  lemma Pow256Values()
    ensures Pow256(2) == U16_LIMIT && Pow256(4) == U32_LIMIT
  {
    assert Pow256(1) == 256;
    assert Pow256(3) == 0x100_0000;
  }

  /** Unsigned 32-bit addition: the sum wraps modulo 2^32, as C's uint32_t does. */
  function Add32(a: u32, b: u32): (r: u32)
    ensures r == a + b || r == a + b - U32_LIMIT
    ensures r < a <==> a + b >= U32_LIMIT
  {
    (a + b) % U32_LIMIT
  }

  /** Unsigned 32-bit subtraction, wrapping modulo 2^32. */
  function Sub32(a: u32, b: u32): (r: u32)
    ensures a >= b ==> r == a - b
    ensures a < b ==> r == a - b + U32_LIMIT
  {
    (a - b) % U32_LIMIT
  }

  /** Conversion of a uint32_t to a two's-complement int32_t (off_t, int). */
  function ToInt32(x: u32): (r: int)
    ensures -(I32_LIMIT as int) <= r < I32_LIMIT
    ensures r % U32_LIMIT == x
    ensures r >= 0 <==> x < I32_LIMIT
  {
    if x < I32_LIMIT then x else x - U32_LIMIT
  }

  /** The value of a little-endian byte string. */
  function Decode(s: seq<byte>): (r: nat)
    ensures r < Pow256(|s|)
  {
    if s == [] then 0 else s[0] + 256 * Decode(s[1..])
  }

  /** The n-byte little-endian representation of x, truncated to n bytes. */
  function Encode(n: nat, x: nat): (r: seq<byte>)
    ensures |r| == n
  {
    if n == 0 then [] else [x % 256] + Encode(n - 1, x / 256)
  }

  /** Reading back what was written gives the value written, when it fits. */
  lemma {:induction false} DecodeEncode(n: nat, x: nat)
    requires x < Pow256(n)
    ensures Decode(Encode(n, x)) == x
  {
    if n > 0 {
      var q, m := x / 256, x % 256;
      assert x == 256 * q + m;
      assert q < Pow256(n - 1);
      DecodeEncode(n - 1, q);
      var e := Encode(n, x);
      assert e[0] == m;
      assert e[1..] == Encode(n - 1, q);
    }
  }

  /** Writing back what was read reproduces the bytes. */
  lemma {:induction false} EncodeDecode(s: seq<byte>)
    ensures Encode(|s|, Decode(s)) == s
  {
    if s != [] {
      EncodeDecode(s[1..]);
      var v := Decode(s);
      assert v % 256 == s[0];
      assert v / 256 == Decode(s[1..]);
    }
  }

  /** The 32-bit word stored at offset i of s. */
  function Word(s: seq<byte>, i: nat): (r: u32)
    requires i + 4 <= |s|
  {
    Pow256Values();
    Decode(s[i..i + 4])
  }

  /** The four bytes of a 32-bit word. */
  function WordBytes(x: u32): (r: seq<byte>)
    ensures |r| == 4
  {
    Encode(4, x)
  }

  lemma WordOfWordBytes(x: u32)
    ensures Word(WordBytes(x), 0) == x
  {
    Pow256Values();
    assert WordBytes(x)[0..4] == WordBytes(x);
    DecodeEncode(4, x);
  }

  /** A word read from the middle of a concatenation is the word read from the part holding it. */
  lemma WordInConcat(a: seq<byte>, b: seq<byte>, c: seq<byte>, i: nat)
    requires i + 4 <= |b|
    ensures Word(a + b + c, |a| + i) == Word(b, i)
  {
    assert (a + b + c)[|a| + i..|a| + i + 4] == b[i..i + 4];
  }

  /** The word whose bytes sit at a given position of a concatenation. */
  lemma WordAtBytes(a: seq<byte>, x: u32, c: seq<byte>)
    ensures Word(a + WordBytes(x) + c, |a|) == x
  {
    WordInConcat(a, WordBytes(x), c, 0);
    WordOfWordBytes(x);
  }

  /** n zero bytes. */
  function Zeros(n: nat): (r: seq<byte>)
    ensures |r| == n
    ensures forall i :: 0 <= i < n ==> r[i] == 0
  {
    seq(n, _ => 0)
  }
}
