/**
 * Sequence-number arithmetic of src/xcbint.h, src/xcb_in.c and src/xcb_out.c.
 *
 * Requests are numbered with 64 bits inside the library, applications hold the
 * low 32 bits (a cookie), and the server echoes the low 16 bits. Numbers are
 * modelled as natural numbers; each truncation is written out.
 */
module Sequence {
  const TWO16: int := 0x1_0000
  const TWO31: int := 0x8000_0000
  const TWO32: int := 0x1_0000_0000
  const TWO63: int := 0x8000_0000_0000_0000
  const TWO64: int := 0x1_0000_0000_0000_0000

  /** The 16 bits of a request number that travel on the wire. */
  type Low = x: nat | x < 0x1_0000

  function Low16(n: nat): Low {
    n % TWO16
  }

  /** The 32 bits of a request number that the application is given. */
  function Cookie(n: nat): (r: nat)
    ensures r < TWO32
  {
    n % TWO32
  }

  /** Conversion to a 32-bit signed integer. */
  function AsInt32(x: int): int {
    var y := x % TWO32;
    if y < TWO31 then y else y - TWO32
  }

  /** Conversion to a 64-bit signed integer. */
  function AsInt64(x: int): int {
    var y := x % TWO64;
    if y < TWO63 then y else y - TWO64
  }

  /** XCB_SEQUENCE_COMPARE, as the signed difference that the operator is applied to. */
  function Compare64(a: nat, b: nat): int {
    AsInt64(a - b)
  }

  /** XCB_SEQUENCE_COMPARE_32, its subtraction read as wrapping. */
  function Compare32(a: nat, b: nat): int {
    AsInt32(AsInt32(a) - AsInt32(b))
  }

  /** The number nearest below the newest request that has the given low 32 bits. */
  function Widen(newest: nat, cookie: nat): nat {
    var widened := newest - newest % TWO32 + cookie;
    if widened > newest then (widened - TWO32) % TWO64 else widened
  }

  /** The 64-bit number read_packet rebuilds from the last number and 16 bits. */
  function Rebuild(last: nat, low: Low): nat {
    var read := last - last % TWO16 + low;
    if read < last then read + TWO16 else read
  }

  /** XCB_PAD. */
  function Pad(i: int): nat {
    (-i) % 4
  }

  /** The rebuilt number is right exactly when it lies in the 65536 numbers from the last one on. */
  lemma RebuildExact(last: nat, n: nat)
    ensures Rebuild(last, Low16(n)) == n <==> last <= n < last + TWO16
  {
    var base := last - last % TWO16;
    assert base % TWO16 == 0;
    assert n == n / TWO16 * TWO16 + Low16(n);
    assert base == last / TWO16 * TWO16;
  }

  /** The bound of RebuildExact is tight: with one more unanswered request the number is wrong. */
  lemma RebuildBoundIsTight(last: nat)
    ensures Rebuild(last, Low16(last + TWO16)) == last
  {
    RebuildExact(last, last);
  }

  lemma AsInt32Window(x: int)
    ensures AsInt32(x) == x <==> -TWO31 <= x < TWO31
  {
  }

  /** Signed conversion depends only on the residue. */
  lemma AsInt32Shift(x: int, y: int, k: int)
    requires y == x + k * TWO32
    ensures AsInt32(y) == AsInt32(x)
  {
    assert y % TWO32 == x % TWO32;
  }

  /** Signed conversion changes a number by a multiple of 2^32. */
  lemma AsInt32Residue(x: int) returns (k: int)
    ensures AsInt32(x) == x + k * TWO32
  {
    k := if x % TWO32 < TWO31 then -(x / TWO32) else -(x / TWO32) - 1;
  }

  lemma Compare32Residue(a: nat, b: nat, a': nat, b': nat, ka: int, kb: int)
    requires a' == a + ka * TWO32 && b' == b + kb * TWO32
    ensures Compare32(a', b') == AsInt32(a - b)
  {
    var ja := AsInt32Residue(a');
    var jb := AsInt32Residue(b');
    AsInt32Shift(a - b, AsInt32(a') - AsInt32(b'), ka + ja - kb - jb);
  }

  /**
   * Comparing 32-bit numbers gives the true distance of the 64-bit numbers they
   * come from exactly when these lie within 2^31 of each other.
   */
  lemma Compare32Exact(a: nat, b: nat)
    ensures Compare32(Cookie(a), Cookie(b)) == Compare32(Cookie(a), b) == Compare32(a, b)
    ensures Compare32(a, b) == a - b <==> -TWO31 <= a - b < TWO31
  {
    Compare32Residue(a, b, a, b, 0, 0);
    Compare32Residue(a, b, Cookie(a), b, -(a / TWO32), 0);
    Compare32Residue(a, b, Cookie(a), Cookie(b), -(a / TWO32), -(b / TWO32));
    AsInt32Window(a - b);
  }

  /** Equality of cookies is equality of numbers less than 2^32 apart. */
  lemma Compare32Equal(a: nat, b: nat)
    requires -TWO32 < a - b < TWO32
    ensures Compare32(Cookie(a), b) == 0 <==> a == b
  {
    Compare32Residue(a, b, Cookie(a), b, -(a / TWO32), 0);
    var k := AsInt32Residue(a - b);
    assert AsInt32(a - b) == 0 ==> k == 0;
  }

  /** The same for the 64-bit comparison; below 2^63 it is the order of the integers. */
  lemma Compare64Exact(a: nat, b: nat)
    ensures Compare64(a, b) == a - b <==> -TWO63 <= a - b < TWO63
  {
  }

  /** The comparison read_packet makes while it rebuilds a number is that of the integers, too. */
  lemma RebuildCompares(last: nat, low: Low)
    ensures Rebuild(last, low) == var read := last - last % TWO16 + low;
      if Compare64(read, last) < 0 then read + TWO16 else read
  {
    Compare64Exact(last - last % TWO16 + low, last);
  }

  /** Widening undoes truncation exactly for the 2^32 newest request numbers. */
  lemma WidenExact(newest: nat, n: nat)
    requires n <= newest < TWO64
    ensures Widen(newest, Cookie(n)) == n <==> newest - TWO32 < n
  {
    var base := newest - newest % TWO32;
    assert base == newest / TWO32 * TWO32;
    assert n == n / TWO32 * TWO32 + Cookie(n);
  }

  /** Padding reaches the next multiple of four with as few bytes as possible. */
  lemma PadIsLeast(i: nat, k: nat)
    ensures (i + Pad(i)) % 4 == 0
    ensures (i + k) % 4 == 0 ==> Pad(i) <= k
  {
  }
}
