/** Byte strings and the fixed-width integer fields Python's `struct` module
    packs with a '<' (little-endian, no alignment) format. */
module Bytes {

  type byte = b: int | 0 <= b < 0x100
  type bytes = seq<byte>
  type u32 = x: int | 0 <= x < 0x1_0000_0000
  type u64 = x: int | 0 <= x < 0x1_0000_0000_0000_0000
  type i32 = x: int | -0x8000_0000 <= x < 0x8000_0000

  const SPACE: byte := 0x20

  function Pow256(n: nat): (r: nat)
    ensures r > 0
  {
    if n == 0 then 1 else 256 * Pow256(n - 1)
  }

  /** The n-byte little-endian encoding of x (struct codes B, I, Q for n = 1, 4, 8). */
  function LittleEndian(x: nat, n: nat): (r: bytes)
    requires x < Pow256(n)
    ensures |r| == n
    ensures n > 0 ==> r[0] == x % 256
  {
    if n == 0 then [] else [x % 256] + LittleEndian(x / 256, n - 1)
  }

  /** The unsigned value of a little-endian byte string. */
  function FromLittleEndian(s: bytes): (r: nat)
    ensures r < Pow256(|s|)
  {
    if s == [] then 0 else s[0] + 256 * FromLittleEndian(s[1..])
  }

  lemma {:induction false} LittleEndianRoundTrip(x: nat, n: nat)
    requires x < Pow256(n)
    ensures FromLittleEndian(LittleEndian(x, n)) == x
  {
    if n > 0 {
      var s := LittleEndian(x, n);
      assert s[1..] == LittleEndian(x / 256, n - 1);
      LittleEndianRoundTrip(x / 256, n - 1);
    }
  }

  /** The 32-bit two's complement bit pattern of a signed value (struct code i). */
  function I32Bits(v: i32): (u: u32)
    ensures u < 0x8000_0000 <==> v >= 0
  {
    if v < 0 then v + 0x1_0000_0000 else v
  }

  function I32FromBits(u: u32): (v: i32)
    ensures v >= 0 <==> u < 0x8000_0000
  {
    if u >= 0x8000_0000 then u - 0x1_0000_0000 else u
  }

  lemma I32BitsRoundTrip(v: i32)
    ensures I32FromBits(I32Bits(v)) == v
  {
  }

  /** `' ' * n` */
  function Spaces(n: nat): (r: bytes)
    ensures |r| == n && forall i :: 0 <= i < n ==> r[i] == SPACE
  {
    seq(n, _ => SPACE)
  }

  /** Python's `s[lo:hi]` for non-negative bounds: both are clamped to the
      length, and an inverted range gives the empty string. */
  function Slice<T>(s: seq<T>, lo: nat, hi: nat): (r: seq<T>)
    ensures lo <= hi <= |s| ==> r == s[lo..hi]
    ensures |s| <= lo || hi <= lo ==> r == []
    ensures |r| + lo <= |s| || r == []
  {
    var l := if lo < |s| then lo else |s|;
    var h := if hi < |s| then hi else |s|;
    if l <= h then s[l..h] else []
  }

  /** How Python reads a slice bound i of a sequence of length n: a negative
      bound counts from the end, and both ends are clamped to [0, n]. */
  function PyBound(i: int, n: nat): (k: nat)
    ensures k <= n
    ensures 0 <= i <= n ==> k == i
    ensures i < 0 && -i <= n ==> k == n + i
  {
    if i < 0 then (if i + n < 0 then 0 else i + n) else if i > n then n else i
  }

  /** Python's `s[lo:]` for a non-negative bound. */
  function Drop<T>(s: seq<T>, lo: nat): (r: seq<T>)
    ensures lo <= |s| ==> r == s[lo..]
    ensures |s| <= lo ==> r == []
    ensures |r| <= |s|
  {
    if lo < |s| then s[lo..] else []
  }

  /** list.index: the first position of x, or |s| when x is absent. */
  function IndexOf<T(==)>(s: seq<T>, x: T): (k: nat)
    ensures k <= |s|
    ensures k < |s| ==> s[k] == x
    ensures forall j :: 0 <= j < k ==> s[j] != x
  {
    if s == [] then 0 else if s[0] == x then 0 else 1 + IndexOf(s[1..], x)
  }
}
