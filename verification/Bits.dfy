/** Fixed-width unsigned integers as bit strings, most significant bit first. */
module Bits {

  type byte = x: nat | x < 256

  function Pow2(w: nat): (p: nat)
    ensures p > 0
  {
    if w == 0 then 1 else 2 * Pow2(w - 1)
  }

  lemma Powers()
    ensures Pow2(4) == 16 && Pow2(8) == 256 && Pow2(16) == 0x1_0000
  {
    assert Pow2(12) == 4096;
  }

  /** The low `w` bits of `x`. */
  function ToBits(x: nat, w: nat): (r: seq<bool>)
    ensures |r| == w
  {
    if w == 0 then [] else ToBits(x / 2, w - 1) + [x % 2 == 1]
  }

  function Value(s: seq<bool>): nat {
    if s == [] then 0 else 2 * Value(s[..|s| - 1]) + (if s[|s| - 1] then 1 else 0)
  }

  function Zeros(n: nat): (r: seq<bool>)
    ensures |r| == n && forall i :: 0 <= i < n ==> !r[i]
  {
    seq(n, _ => false)
  }

  /** Bitwise exclusive or, the sum of two polynomials over GF(2). */
  function Add(a: seq<bool>, b: seq<bool>): (r: seq<bool>)
    requires |a| == |b|
    ensures |r| == |a|
  {
    seq(|a|, i requires 0 <= i < |a| => a[i] != b[i])
  }

  /** The `^` of two `w`-bit integers. */
  function Xor(a: nat, b: nat, w: nat): nat {
    Value(Add(ToBits(a, w), ToBits(b, w)))
  }

  lemma {:induction false} ValueOfBits(x: nat, w: nat)
    requires x < Pow2(w)
    ensures Value(ToBits(x, w)) == x
  {
    if w > 0 {
      ValueOfBits(x / 2, w - 1);
      assert ToBits(x, w)[..w - 1] == ToBits(x / 2, w - 1);
    }
  }

  lemma {:induction false} BitsOfValue(s: seq<bool>)
    ensures Value(s) < Pow2(|s|) && ToBits(Value(s), |s|) == s
  {
    if s != [] {
      BitsOfValue(s[..|s| - 1]);
      assert s == s[..|s| - 1] + [s[|s| - 1]];
    }
  }

  lemma XorBits(a: nat, b: nat, w: nat)
    ensures Xor(a, b, w) < Pow2(w) && ToBits(Xor(a, b, w), w) == Add(ToBits(a, w), ToBits(b, w))
  {
    BitsOfValue(Add(ToBits(a, w), ToBits(b, w)));
  }

  /** Bits of a number put together from a high part and `k` low bits. */
  lemma {:induction false} BitsJoin(hi: nat, lo: nat, w: nat, k: nat)
    requires lo < Pow2(k)
    ensures ToBits(hi * Pow2(k) + lo, w + k) == ToBits(hi, w) + ToBits(lo, k)
  {
    if k == 0 {
      assert ToBits(lo, k) == [] && hi * Pow2(k) + lo == hi;
    } else {
      BitsJoin(hi, lo / 2, w, k - 1);
      var x := hi * Pow2(k) + lo;
      assert hi * Pow2(k) == 2 * (hi * Pow2(k - 1));
      assert x / 2 == hi * Pow2(k - 1) + lo / 2 && x % 2 == lo % 2;
      assert ToBits(x, w + k) == ToBits(hi, w) + (ToBits(lo / 2, k - 1) + [lo % 2 == 1]);
    }
  }

  lemma {:induction false} BitsOfZero(w: nat)
    ensures ToBits(0, w) == Zeros(w)
  {
    if w > 0 {
      BitsOfZero(w - 1);
    }
  }

  // ----- Little-endian byte strings

  function ZeroBytes(n: nat): (d: seq<byte>)
    ensures |d| == n
  {
    seq<byte>(n, _ => 0)
  }

  /** The low `n` bytes of `x` in memory order. */
  function LeBytes(x: nat, n: nat): (d: seq<byte>)
    ensures |d| == n
    decreases n
  {
    if n == 0 then [] else [x % 256] + LeBytes(x / 256, n - 1)
  }

  function LeValue(d: seq<byte>): nat {
    if d == [] then 0 else (d[0] as nat) + 256 * LeValue(d[1..])
  }

  function Pow256(n: nat): (p: nat)
    ensures p > 0
  {
    if n == 0 then 1 else 256 * Pow256(n - 1)
  }

  lemma ByteAndRest(b: byte, x: nat)
    ensures ((b as nat) + 256 * x) % 256 == b && ((b as nat) + 256 * x) / 256 == x
  {}

  lemma LePush(b: byte, x: nat, n: nat)
    ensures LeBytes((b as nat) + 256 * x, n + 1) == [b] + LeBytes(x, n)
  {
    ByteAndRest(b, x);
  }

  lemma {:induction false} LeRoundTrip(x: nat, n: nat)
    requires x < Pow256(n)
    ensures LeValue(LeBytes(x, n)) == x
    decreases n
  {
    if n > 0 {
      LeRoundTrip(x / 256, n - 1);
      assert LeBytes(x, n)[1..] == LeBytes(x / 256, n - 1);
    }
  }

  lemma {:induction false} LeOfValue(d: seq<byte>)
    ensures LeValue(d) < Pow256(|d|) && LeBytes(LeValue(d), |d|) == d
  {
    if d != [] {
      LeOfValue(d[1..]);
      LePush(d[0], LeValue(d[1..]), |d| - 1);
    }
  }
}
