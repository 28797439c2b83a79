/** The data CRC of sw/lib/hal/spi_sdcard.c: the table-driven loop, and the polynomial division
    modulo x^16 + x^12 + x^5 + 1 that it has to compute (section 4.5 of the SD Physical Layer
    Simplified Specification). Polynomials over GF(2) are bit strings, highest power first. */
module Crc16 {
  import opened Bits
  import opened Crc16Table

  // ----- The division

  const GENERATOR: seq<bool> := [
    false, false, false, true, false, false, false, false,
    false, false, true, false, false, false, false, true]

  function Times(b: bool): (r: seq<bool>)
    ensures |r| == 16
  {
    if b then GENERATOR else Zeros(16)
  }

  /** One step of long division: bring down bit `b`, subtract the divisor if it fits. */
  function Bring(r: seq<bool>, b: bool): (r': seq<bool>)
    requires |r| == 16
    ensures |r'| == 16
  {
    Add(r[1..] + [b], Times(r[0]))
  }

  function Divide(r: seq<bool>, m: seq<bool>): (r': seq<bool>)
    requires |r| == 16
    ensures |r'| == 16
    decreases |m|
  {
    if m == [] then r else Divide(Bring(r, m[0]), m[1..])
  }

  /** The remainder of message polynomial `m`. */
  function Remainder(m: seq<bool>): (r: seq<bool>)
    ensures |r| == 16
  {
    Divide(Zeros(16), m)
  }

  /** The check value: the remainder of the message times x^16. */
  function Crc(m: seq<bool>): (r: seq<bool>)
    ensures |r| == 16
  {
    Remainder(m + Zeros(16))
  }

  /** The product of `q` and the 17-bit divisor. */
  function TimesDivisor(q: seq<bool>): (p: seq<bool>)
    ensures |p| == |q| + 16
  {
    if q == [] then Zeros(16) else
      var k := |q| - 1;
      Add(TimesDivisor(q[..k]) + [false], Zeros(k) + [q[k]] + Times(q[k]))
  }

  /** `Remainder` is a remainder: the message is a multiple of the divisor plus it. */
  lemma {:induction false} DivisionIdentity(m: seq<bool>) returns (q: seq<bool>)
    ensures |q| == |m|
    ensures Zeros(16) + m == Add(TimesDivisor(q), Zeros(|m|) + Remainder(m))
  {
    if m == [] {
      q := [];
    } else {
      var k := |m| - 1;
      var q0 := DivisionIdentity(m[..k]);
      DivideAppend(Zeros(16), m[..k], [m[k]]);
      assert m == m[..k] + [m[k]];
      var r := Remainder(m[..k]);
      DivideOne(r, m[k]);
      q := q0 + [r[0]];
      DivisionStep(m[..k], q0, r, m[k]);
    }
  }

  lemma DivideOne(r: seq<bool>, b: bool)
    requires |r| == 16
    ensures Divide(r, [b]) == Bring(r, b)
  {
    assert Divide(Bring(r, b), []) == Bring(r, b);
  }

  lemma DivisionStep(p: seq<bool>, q: seq<bool>, r: seq<bool>, b: bool)
    requires |r| == 16 && |q| == |p|
    requires Zeros(16) + p == Add(TimesDivisor(q), Zeros(|p|) + r)
    ensures Zeros(16) + (p + [b]) == Add(TimesDivisor(q + [r[0]]), Zeros(|p| + 1) + Bring(r, b))
  {
    var k := |p|;
    BringUndone(k, r, b);
    Regroup(Zeros(k), r, [b]);
    TimesDivisorLast(q, r[0]);
    OneMore(Zeros(16), p, TimesDivisor(q), Zeros(k) + r, Zeros(k) + [r[0]] + Times(r[0]),
            Zeros(k + 1) + Bring(r, b), b);
  }

  lemma OneMore(z: seq<bool>, p: seq<bool>, t: seq<bool>, u: seq<bool>, d: seq<bool>, e: seq<bool>, b: bool)
    requires |t| == |u| && |d| == |e| == |u| + 1
    requires z + p == Add(t, u) && u + [b] == Add(d, e)
    ensures z + (p + [b]) == Add(Add(t + [false], d), e)
  {
    Regroup(z, p, [b]);
    AddAppend(t, u, [false], [b]);
    assert Add([false], [b]) == [b];
    AddAssoc(t + [false], d, e);
  }

  lemma Regroup(a: seq<bool>, b: seq<bool>, c: seq<bool>)
    ensures a + (b + c) == a + b + c
  {}

  lemma TimesDivisorLast(q: seq<bool>, b: bool)
    ensures TimesDivisor(q + [b]) == Add(TimesDivisor(q) + [false], Zeros(|q|) + [b] + Times(b))
  {
    assert (q + [b])[..|q|] == q;
  }

  /** What a step brings down is what it subtracted plus what it left. */
  lemma BringUndone(k: nat, r: seq<bool>, b: bool)
    requires |r| == 16
    ensures Zeros(k) + (r + [b]) == Add(Zeros(k) + [r[0]] + Times(r[0]), Zeros(k + 1) + Bring(r, b))
  {
    assert r + [b] == [r[0]] + (r[1..] + [b]);
    assert r[1..] + [b] == Add(Times(r[0]), Bring(r, b));
    AddAppend([r[0]], [false], Times(r[0]), Bring(r, b));
    AddAppend(Zeros(k), Zeros(k), [r[0]] + Times(r[0]), [false] + Bring(r, b));
    assert Zeros(k) + ([r[0]] + Times(r[0])) == Zeros(k) + [r[0]] + Times(r[0]);
    assert Zeros(k) + ([false] + Bring(r, b)) == Zeros(k + 1) + Bring(r, b);
    assert Add(Zeros(k), Zeros(k)) == Zeros(k) && Add([r[0]], [false]) == [r[0]];
  }

  lemma AddAppend(a: seq<bool>, b: seq<bool>, c: seq<bool>, d: seq<bool>)
    requires |a| == |b| && |c| == |d|
    ensures Add(a + c, b + d) == Add(a, b) + Add(c, d)
  {}

  lemma AddAssoc(a: seq<bool>, b: seq<bool>, c: seq<bool>)
    requires |a| == |b| == |c|
    ensures Add(a, Add(b, c)) == Add(Add(a, b), c)
  {}

  lemma {:induction false} DivideAppend(r: seq<bool>, a: seq<bool>, b: seq<bool>)
    requires |r| == 16
    ensures Divide(r, a + b) == Divide(Divide(r, a), b)
    decreases |a|
  {
    if a == [] {
      assert a + b == b;
    } else {
      assert (a + b)[1..] == a[1..] + b;
      DivideAppend(Bring(r, a[0]), a[1..], b);
    }
  }

  /** Division is linear. */
  lemma {:induction false} DivideAdd(r: seq<bool>, s: seq<bool>, a: seq<bool>, b: seq<bool>)
    requires |r| == |s| == 16 && |a| == |b|
    ensures Divide(Add(r, s), Add(a, b)) == Add(Divide(r, a), Divide(s, b))
    decreases |a|
  {
    if a != [] {
      assert Add(a, b)[1..] == Add(a[1..], b[1..]);
      BringAdd(r, s, a[0], b[0]);
      DivideAdd(Bring(r, a[0]), Bring(s, b[0]), a[1..], b[1..]);
    }
  }

  lemma BringAdd(r: seq<bool>, s: seq<bool>, a: bool, b: bool)
    requires |r| == |s| == 16
    ensures Bring(Add(r, s), a != b) == Add(Bring(r, a), Bring(s, b))
  {
    assert Add(r, s)[0] == (r[0] != s[0]);
    forall i | 0 <= i < 16
      ensures Bring(Add(r, s), a != b)[i] == Add(Bring(r, a), Bring(s, b))[i]
    {
      assert (Add(r, s)[1..] + [a != b])[i] == ((r[1..] + [a])[i] != (s[1..] + [b])[i]);
      assert Times(r[0] != s[0])[i] == (Times(r[0])[i] != Times(s[0])[i]);
    }
  }

  lemma BringSmall(z: nat, r: seq<bool>, b: bool)
    requires 0 < z && z + |r| == 16
    ensures Bring(Zeros(z) + r, b) == Zeros(z - 1) + (r + [b])
  {
    assert (Zeros(z) + r)[1..] + [b] == Zeros(z - 1) + (r + [b]);
  }

  /** Nothing is subtracted while only zeros have been shifted out. */
  lemma {:induction false} ShiftIn(z: nat, r: seq<bool>, m: seq<bool>)
    requires |m| <= z && z + |r| == 16
    ensures Divide(Zeros(z) + r, m) == Zeros(z - |m|) + (r + m)
    decreases |m|
  {
    if m == [] {
      assert r + m == r;
    } else {
      var m' := m[1..];
      BringSmall(z, r, m[0]);
      ShiftIn(z - 1, r + [m[0]], m');
      Regroup(r, [m[0]], m');
      assert m == [m[0]] + m';
    }
  }

  lemma AddZeros(a: seq<bool>)
    ensures Add(a, Zeros(|a|)) == a && Add(Zeros(|a|), a) == a && Add(a, a) == Zeros(|a|)
  {}

  lemma DivideZeros(n: nat)
    ensures Divide(Zeros(16), Zeros(n)) == Zeros(16)
    decreases n
  {
    if n > 0 {
      assert Bring(Zeros(16), false) == Zeros(16);
      assert Zeros(n)[1..] == Zeros(n - 1);
      DivideZeros(n - 1);
    }
  }

  /** A nonzero remainder stays nonzero under zero bits: the divisor has the term 1. */
  lemma {:induction false} NonzeroStays(r: seq<bool>, n: nat)
    requires |r| == 16 && r != Zeros(16)
    ensures Divide(r, Zeros(n)) != Zeros(16)
    decreases n
  {
    if n > 0 {
      BringNonzero(r);
      assert Zeros(n)[1..] == Zeros(n - 1);
      NonzeroStays(Bring(r, false), n - 1);
    }
  }

  lemma BringNonzero(r: seq<bool>)
    requires |r| == 16 && r != Zeros(16)
    ensures Bring(r, false) != Zeros(16)
  {
    var s := Bring(r, false);
    assert s[15] == r[0];
    if !r[0] {
      var i :| 0 < i < 16 && r[i];
      assert s[i - 1] == (r[1..] + [false])[i - 1];
    }
  }

  // ----- Error detection

  /** Any burst of at most sixteen bits, wherever it lies, changes the check value. */
  lemma BurstDetected(a: seq<bool>, b: seq<bool>, i: nat)
    requires |a| == |b| && a != b
    requires forall j :: 0 <= j < |a| && (j < i || i + 16 <= j) ==> a[j] == b[j]
    ensures Crc(a) != Crc(b)
  {
    var d := Add(a, b);
    var e := if i + 16 <= |d| then i + 16 else |d|;
    assert i < |d|;
    var w := d[i..e];
    assert d == Zeros(i) + (w + Zeros(|d| - e));
    assert w != Zeros(|w|) by {
      var j :| 0 <= j < |a| && a[j] != b[j];
      assert d[j] && w[j - i];
    }
    DifferenceRemains(i, w, |d| - e);
    CrcAdd(a, b);
    AddZeros(Crc(a));
  }

  lemma CrcAdd(a: seq<bool>, b: seq<bool>)
    requires |a| == |b|
    ensures Crc(Add(a, b)) == Add(Crc(a), Crc(b))
  {
    AddZeros(Zeros(16));
    AddAppend(a, b, Zeros(16), Zeros(16));
    DivideAdd(Zeros(16), Zeros(16), a + Zeros(16), b + Zeros(16));
  }

  lemma DifferenceRemains(i: nat, w: seq<bool>, k: nat)
    requires |w| <= 16 && w != Zeros(|w|)
    ensures Crc(Zeros(i) + (w + Zeros(k))) != Zeros(16)
  {
    var r := Zeros(16 - |w|) + w;
    assert r != Zeros(16) by {
      var j :| 0 <= j < |w| && w[j];
      assert r[16 - |w| + j];
    }
    assert Zeros(i) + (w + Zeros(k)) + Zeros(16) == Zeros(i) + (w + Zeros(k + 16));
    DivideAppend(Zeros(16), Zeros(i), w + Zeros(k + 16));
    DivideZeros(i);
    DivideAppend(Zeros(16), w, Zeros(k + 16));
    ShiftIn(16, [], w);
    assert Zeros(16) + [] == Zeros(16) && [] + w == w;
    NonzeroStays(r, k + 16);
  }

  // ----- Bytes

  function MessageBits(d: seq<byte>): (m: seq<bool>)
    ensures |m| == 8 * |d|
  {
    if d == [] then [] else MessageBits(d[..|d| - 1]) + ToBits(d[|d| - 1], 8)
  }

  /** The 16-bit check value of a byte sequence. */
  function CrcValue(d: seq<byte>): nat {
    Value(Crc(MessageBits(d)))
  }

  lemma {:induction false} MessageBit(d: seq<byte>, k: nat, j: nat)
    requires k < |d| && j < 8
    ensures MessageBits(d)[8 * k + j] == ToBits(d[k], 8)[j]
  {
    if k < |d| - 1 {
      MessageBit(d[..|d| - 1], k, j);
    }
  }

  lemma {:induction false} MessageBitsInjective(a: seq<byte>, b: seq<byte>)
    requires |a| == |b| && MessageBits(a) == MessageBits(b)
    ensures a == b
  {
    if a != [] {
      var k := |a| - 1;
      var x, y := ToBits(a[k], 8), ToBits(b[k], 8);
      assert MessageBits(a)[..8 * k] == MessageBits(a[..k]) && MessageBits(a)[8 * k..] == x;
      assert MessageBits(b)[..8 * k] == MessageBits(b[..k]) && MessageBits(b)[8 * k..] == y;
      MessageBitsInjective(a[..k], b[..k]);
      ByteBitsInjective(a[k], b[k]);
      assert a == a[..k] + [a[k]] && b == b[..k] + [b[k]];
    }
  }

  lemma ByteBitsInjective(x: byte, y: byte)
    requires ToBits(x, 8) == ToBits(y, 8)
    ensures x == y
  {
    Powers();
    ValueOfBits(x, 8);
    ValueOfBits(y, 8);
  }

  /** Two sequences that differ only within two adjacent bytes have different check values. */
  lemma TwoByteBurstDetected(a: seq<byte>, b: seq<byte>, k: nat)
    requires |a| == |b| && a != b
    requires forall j :: 0 <= j < |a| && j != k && j != k + 1 ==> a[j] == b[j]
    ensures CrcValue(a) != CrcValue(b)
  {
    var m, n := MessageBits(a), MessageBits(b);
    forall i | 0 <= i < |m| && (i < 8 * k || 8 * k + 16 <= i) ensures m[i] == n[i] {
      MessageBit(a, i / 8, i % 8);
      MessageBit(b, i / 8, i % 8);
    }
    if m == n {
      MessageBitsInjective(a, b);
    }
    BurstDetected(m, n, 8 * k);
    BitsOfValue(Crc(m));
    BitsOfValue(Crc(n));
  }

  /** One byte further: the step the table-driven loop takes at once. */
  lemma CrcOfByte(m: seq<bool>, d: seq<bool>)
    requires |d| == 8
    ensures Crc(m + d) == Divide(Add(Crc(m), d + Zeros(8)), Zeros(8))
  {
    var h, x, z := Remainder(m), d + Zeros(8), Zeros(8);
    assert m + d + Zeros(16) == m + (x + z);
    DivideAppend(Zeros(16), m, x + z);
    DivideAppend(h, x, z);
    DivideAppend(Zeros(16), m, Zeros(16));
    assert Divide(h, x) == Add(Divide(h, Zeros(16)), x) by {
      AddZeros(h);
      AddZeros(x);
      DivideAdd(h, Zeros(16), Zeros(16), x);
      ShiftIn(16, [], x);
      assert Zeros(16) + [] == Zeros(16) && Zeros(0) + ([] + x) == x;
    }
  }

  // ----- The table

  /** The four bits of a digit. */
  function Nib(d: nat): (r: seq<bool>)
    requires d < 16
    ensures |r| == 4
  {
    ToBits(d, 4)
  }

  lemma NibHigh(d: nat)
    requires d < 16
    ensures Nib(d) == [8 <= d] + ToBits(if d < 8 then d else d - 8, 3)
  {
    var h, l := if d < 8 then 0 else 1, if d < 8 then d else d - 8;
    assert Pow2(3) == 8;
    BitsJoin(h, l, 1, 3);
    assert ToBits(h, 1) == ToBits(h / 2, 0) + [h % 2 == 1] == [h == 1];
  }

  lemma NibLow(d: nat)
    requires d < 16
    ensures Nib(d) == ToBits(d / 2, 3) + [d % 2 == 1]
    ensures Nib(d) == ToBits(d / 2 / 2, 2) + [d / 2 % 2 == 1, d % 2 == 1]
  {}

  lemma FlipDigit1(d: nat)
    requires d < 16
    ensures Flip1(d) < 16 && Nib(Flip1(d)) == Add(Nib(d), [false, false, false, true])
  {
    NibLow(d);
    NibLow(Flip1(d));
    assert Flip1(d) / 2 == d / 2 && Flip1(d) % 2 != d % 2;
  }

  lemma FlipDigit2(d: nat)
    requires d < 16
    ensures Flip2(d) < 16 && Nib(Flip2(d)) == Add(Nib(d), [false, false, true, false])
  {
    NibLow(d);
    NibLow(Flip2(d));
    assert Flip2(d) / 2 / 2 == d / 2 / 2 && Flip2(d) / 2 % 2 != d / 2 % 2 && Flip2(d) % 2 == d % 2;
  }

  lemma TwiceDigit(d: nat, below: nat)
    requires d < 16 && below < 16
    ensures 0 <= Twice(d, below) < 16
    ensures Nib(Twice(d, below)) == Nib(d)[1..] + [Nib(below)[0]]
  {
    var t := Twice(d, below);
    NibHigh(d);
    NibHigh(below);
    assert 0 <= t < 16 && t / 2 == (if d < 8 then d else d - 8) && (t % 2 == 1 <==> 8 <= below);
    NibLow(t);
  }

  function WordBits(x: Word): (r: seq<bool>)
    requires Digits(x)
    ensures |r| == 16
  {
    Nib(x.a) + Nib(x.b) + Nib(x.c) + Nib(x.d)
  }

  lemma NumBits(x: Word)
    requires Digits(x)
    ensures x.Num() < 0x1_0000 && ToBits(x.Num(), 16) == WordBits(x)
  {
    hide ToBits, Nib;
    var p, q := 16 * x.a + x.b, 16 * (16 * x.a + x.b) + x.c;
    AppendDigit(x.a, x.b, 4);
    AppendDigit(p, x.c, 8);
    AppendDigit(q, x.d, 12);
    assert x.Num() == 16 * q + x.d;
    assert ToBits(x.a, 4) == Nib(x.a) by { NibIs(x.a); }
  }

  lemma NibIs(d: nat)
    requires d < 16
    ensures Nib(d) == ToBits(d, 4)
  {}

  lemma AppendDigit(n: nat, d: nat, w: nat)
    requires d < 16
    ensures ToBits(16 * n + d, w + 4) == ToBits(n, w) + Nib(d)
  {
    Powers();
    BitsJoin(n, d, w, 4);
  }

  lemma FlipBits(y: Word)
    requires Digits(y)
    ensures Digits(Flip(y)) && WordBits(Flip(y)) == Add(WordBits(y), GENERATOR)
  {
    FlipDigit1(y.a);
    FlipDigit2(y.c);
    FlipDigit1(y.d);
    AddZeros(Nib(y.b));
  }

  lemma TwiceBits(x: Word, y: Word)
    requires Digits(x) && IsTwice(x, y)
    ensures Digits(y) && WordBits(y) == WordBits(x)[1..] + [false]
  {
    TwiceDigit(x.a, x.b);
    TwiceDigit(x.b, x.c);
    TwiceDigit(x.c, x.d);
    TwiceDigit(x.d, 0);
    NibHigh(0);
  }

  /** A table pair in bits: one zero brought down, and the same plus the divisor. */
  lemma PairBits(x: Word, y: Word, z: Word)
    requires Pair(x, y, z)
    ensures Digits(y) && WordBits(y) == Bring(WordBits(x), false)
    ensures Digits(z) && WordBits(z) == Add(WordBits(y), GENERATOR)
  {
    NibHigh(x.a);
    assert WordBits(x)[0] == (8 <= x.a);
    if x.a < 8 {
      TwiceBits(x, y);
      FlipBits(y);
      AddZeros(WordBits(y));
    } else {
      TwiceBits(x, z);
      UnflipDigits(y);
      FlipBits(y);
      AddAssoc(WordBits(y), GENERATOR, GENERATOR);
      AddZeros(GENERATOR);
      AddZeros(WordBits(y));
    }
  }

  lemma UnflipDigits(y: Word)
    requires Digits(Flip(y))
    ensures Digits(y)
  {}

  /** What eight zeros leave of byte `k` on top of a zero byte. */
  function ByteRest(k: nat): (r: seq<bool>)
    ensures |r| == 16
  {
    Divide(ToBits(k, 8) + Zeros(8), Zeros(8))
  }

  lemma ByteRestEven(j: nat)
    requires j < 128
    ensures ByteRest(2 * j) == Bring(ByteRest(j), false)
  {
    var x, z := ToBits(j, 8) + Zeros(8), Zeros(8);
    assert ToBits(2 * j, 8) + z == Bring(x, false) by {
      DoubledByte(j);
      AddZeros(x[1..] + [false]);
    }
    calc {
      ByteRest(2 * j);
      Divide(Bring(x, false), z);
      { DivideOne(x, false); DivideAppend(x, [false], z); }
      Divide(x, [false] + z);
      { assert [false] + z == z + [false]; DivideAppend(x, z, [false]); }
      Divide(ByteRest(j), [false]);
      { DivideOne(ByteRest(j), false); }
      Bring(ByteRest(j), false);
    }
  }

  lemma OddByte(j: nat)
    requires j < 128
    ensures ToBits(2 * j + 1, 8) == Add(ToBits(2 * j, 8), Zeros(7) + [true])
  {
    var s := ToBits(j, 7);
    assert 2 * j / 2 == (2 * j + 1) / 2 == j;
    assert ToBits(2 * j, 8) == s + [false] && ToBits(2 * j + 1, 8) == s + [true];
    AddZeros(s);
    AddAppend(s, Zeros(7), [false], [true]);
    assert Add([false], [true]) == [true];
  }

  lemma ByteRestOdd(j: nat)
    requires j < 128
    ensures ByteRest(2 * j + 1) == Add(ByteRest(2 * j), GENERATOR)
  {
    hide Divide, GENERATOR;
    var y, z, one := ToBits(2 * j, 8), Zeros(8), Zeros(7) + [true];
    OddByte(j);
    AddZeros(z);
    AddAppend(y, one, z, z);
    DivideAdd(y + z, one + z, z, z);
    DivideOfOne();
  }

  lemma DoubledByte(j: nat)
    requires j < 128
    ensures ToBits(2 * j, 8) == ToBits(j, 8)[1..] + [false] && !ToBits(j, 8)[0]
  {
    assert Pow2(7) == 128;
    LastBit(2 * j, 8);
    BitsJoin(0, j, 1, 7);
    BitsOfZero(1);
    hide ToBits;
    assert 2 * j / 2 == j && 2 * j % 2 == 0;
  }

  lemma LastBit(x: nat, w: nat)
    requires w > 0
    ensures ToBits(x, w) == ToBits(x / 2, w - 1) + [x % 2 == 1]
  {}

  /** x^16 leaves exactly the lower terms of the divisor. */
  lemma DivideOfOne()
    ensures Divide(Zeros(7) + [true] + Zeros(8), Zeros(8)) == GENERATOR
  {
    var top := [true] + Zeros(15);
    ShiftIn(7, [true] + Zeros(8), Zeros(7));
    assert Zeros(7) + ([true] + Zeros(8)) == Zeros(7) + [true] + Zeros(8);
    assert Zeros(0) + ([true] + Zeros(8) + Zeros(7)) == top;
    assert Zeros(8) == Zeros(7) + [false];
    DivideAppend(Zeros(7) + [true] + Zeros(8), Zeros(7), [false]);
    DivideOne(top, false);
    assert top[1..] + [false] == Zeros(16);
    AddZeros(GENERATOR);
  }

  /** Entry `k` of the table is what eight zeros leave of byte `k`. */
  lemma {:induction false} EntryBits(k: nat)
    requires k < 256
    ensures Digits(Entry(k)) && WordBits(Entry(k)) == ByteRest(k)
  {
    hide Entry, ByteRest, WordBits;
    if k == 0 {
      EntryZero();
    } else {
      var j := k / 2;
      EntryBits(j);
      TablePair(j);
      PairBits(Entry(j), Entry(2 * j), Entry(2 * j + 1));
      ByteRestEven(j);
      ByteRestOdd(j);
    }
  }

  lemma EntryZero()
    ensures Digits(Entry(0)) && WordBits(Entry(0)) == ByteRest(0)
  {
    BitsOfZero(8);
    BitsOfZero(4);
    assert Entry(0) == W(0, 0, 0, 0);
    assert Zeros(8) + Zeros(8) == Zeros(16) == WordBits(Entry(0));
    DivideZeros(8);
  }

  // ----- The loop

  /** One pass of the loop body over byte `d`. */
  function Next(state: nat, d: byte): nat
    requires state < 0x1_0000
  {
    XorBits(d, state / 256, 8);
    Powers();
    Xor(Table(Xor(d, state / 256, 8)), state * 256 % 0x1_0000, 16)
  }

  /** The two bytes of a 16-bit word. */
  lemma SplitWord(s: nat)
    requires s < 0x1_0000
    ensures ToBits(s, 16) == ToBits(s / 256, 8) + ToBits(s % 256, 8)
  {
    hide ToBits;
    Powers();
    BitsJoin(s / 256, s % 256, 8, 8);
    assert s == s / 256 * 256 + s % 256;
  }

  lemma ShiftedWord(s: nat)
    requires s < 0x1_0000
    ensures s * 256 % 0x1_0000 == s % 256 * 256
    ensures ToBits(s * 256 % 0x1_0000, 16) == ToBits(s % 256, 8) + Zeros(8)
  {
    hide ToBits;
    Powers();
    BitsJoin(s % 256, 0, 8, 8);
    BitsOfZero(8);
    assert s * 256 == s / 256 * 0x1_0000 + s % 256 * 256;
  }

  /** What the low byte becomes when eight zeros are brought down: it only moves up. */
  lemma LowByteMoves(lo: seq<bool>)
    requires |lo| == 8
    ensures Divide(Zeros(8) + lo, Zeros(8)) == lo + Zeros(8)
  {
    ShiftIn(8, lo, Zeros(8));
    assert Zeros(0) + (lo + Zeros(8)) == lo + Zeros(8);
  }

  lemma NextBits(state: nat, d: byte)
    requires state < 0x1_0000
    ensures Next(state, d) < 0x1_0000
    ensures ToBits(Next(state, d), 16) == Divide(Add(ToBits(state, 16), ToBits(d, 8) + Zeros(8)), Zeros(8))
  {
    hide Entry, Divide, Xor;
    var hi, lo, db, z := ToBits(state / 256, 8), ToBits(state % 256, 8), ToBits(d, 8), Zeros(8);
    var k := Xor(d, state / 256, 8);
    Powers();
    XorBits(d, state / 256, 8);
    assert ToBits(k, 8) == Add(db, hi);
    EntryBits(k);
    NumBits(Entry(k));
    SplitWord(state);
    ShiftedWord(state);
    XorBits(Table(k), state * 256 % 0x1_0000, 16);
    calc {
      ToBits(Next(state, d), 16);
      Add(ByteRest(k), lo + z);
      { LowByteMoves(lo); AddZeros(z); DivideAdd(Add(db, hi) + z, z + lo, z, z); }
      Divide(Add(Add(db, hi) + z, z + lo), z);
      { StateSplit(hi, lo, db); }
      Divide(Add(hi + lo, db + z), z);
    }
  }

  lemma StateSplit(hi: seq<bool>, lo: seq<bool>, db: seq<bool>)
    requires |hi| == |lo| == |db| == 8
    ensures Add(Add(db, hi) + Zeros(8), Zeros(8) + lo) == Add(hi + lo, db + Zeros(8))
  {}

  /** The value as a little-endian machine reads a big-endian word from memory. */
  function SwapBytes(s: nat): nat
    requires s < 0x1_0000
  {
    s % 256 * 256 + s / 256
  }

  lemma CrcBound(d: seq<byte>)
    ensures CrcValue(d) < 0x1_0000 && ToBits(CrcValue(d), 16) == Crc(MessageBits(d))
  {
    Powers();
    BitsOfValue(Crc(MessageBits(d)));
  }

  lemma CrcEmpty()
    ensures CrcValue([]) == 0
  {
    assert MessageBits([]) + Zeros(16) == Zeros(16);
    DivideZeros(16);
    hide Divide, ToBits;
    Powers();
    BitsOfZero(16);
    ValueOfBits(0, 16);
  }

  lemma CrcNext(d: seq<byte>, b: byte)
    ensures CrcValue(d) < 0x1_0000 && CrcValue(d + [b]) == Next(CrcValue(d), b)
  {
    hide Crc, Divide, Next;
    CrcBound(d);
    CrcBound(d + [b]);
    NextBits(CrcValue(d), b);
    assert (d + [b])[..|d|] == d;
    CrcOfByte(MessageBits(d), ToBits(b, 8));
    Powers();
    ValueOfBits(CrcValue(d + [b]), 16);
    ValueOfBits(Next(CrcValue(d), b), 16);
  }

  /** `__spi_sdcard_crc16` over `len` bytes from `start`. */
  method Crc16(data: array<byte>, start: nat, len: nat) returns (r: nat)
    requires start + len <= data.Length
    ensures CrcValue(data[start..start + len]) < 0x1_0000
    ensures r == SwapBytes(CrcValue(data[start..start + len]))
  {
    var state := 0;
    CrcEmpty();
    for i := 0 to len
      invariant state < 0x1_0000 && state == CrcValue(data[start..start + i])
    {
      var d := data[start + i];
      assert data[start..start + i] + [d] == data[start..start + i + 1];
      CrcNext(data[start..start + i], d);
      CrcBound(data[start..start + i + 1]);
      state := Next(state, d);
    }
    r := state % 256 * 256 + state / 256;
  }

  /** The two check bytes as the card sends them, most significant first. */
  function CheckBytes(d: seq<byte>): (c: seq<byte>)
    ensures |c| == 2 && (c[0] as nat) * 256 + (c[1] as nat) == CrcValue(d)
  {
    CrcBound(d);
    hide CrcValue;
    [CrcValue(d) / 256, CrcValue(d) % 256]
  }

  /** The comparison of the driver accepts exactly the check bytes of the data, and these are the
      only two bytes that make the whole block divisible by the generator. */
  lemma AcceptedExactly(d: seq<byte>, c0: byte, c1: byte)
    ensures CrcValue(d) < 0x1_0000
    ensures c0 + 256 * c1 == SwapBytes(CrcValue(d)) <==> [c0, c1] == CheckBytes(d)
    ensures [c0, c1] == CheckBytes(d) <==> Remainder(MessageBits(d + [c0, c1])) == Zeros(16)
  {
    hide CrcValue, CheckBytes, SwapBytes, Remainder, MessageBits;
    CrcBound(d);
    SwappedBytes(d, c0, c1);
    DivisibleExactly(d, c0, c1);
  }

  lemma SwappedBytes(d: seq<byte>, c0: byte, c1: byte)
    requires CrcValue(d) < 0x1_0000
    ensures c0 + 256 * c1 == SwapBytes(CrcValue(d)) <==> [c0, c1] == CheckBytes(d)
  {
    hide CrcValue, CheckBytes;
    var c := CheckBytes(d);
    assert CrcValue(d) / 256 == c[0] && CrcValue(d) % 256 == c[1];
    assert c == [c[0], c[1]];
  }

  lemma DivisibleExactly(d: seq<byte>, c0: byte, c1: byte)
    ensures [c0, c1] == CheckBytes(d) <==> Remainder(MessageBits(d + [c0, c1])) == Zeros(16)
  {
    hide CrcValue, CheckBytes, Remainder, MessageBits, ToBits, Crc;
    TailRemainder(d, c0, c1);
    CheckBits(d);
    var w, c := ToBits(c0, 8) + ToBits(c1, 8), CheckBytes(d);
    if w == Crc(MessageBits(d)) {
      assert ToBits(c0, 8) == w[..8] == ToBits(c[0], 8) && ToBits(c1, 8) == w[8..] == ToBits(c[1], 8);
      ByteBitsInjective(c0, c[0]);
      ByteBitsInjective(c1, c[1]);
      assert c == [c0, c1];
      AddZeros(w);
    } else {
      AddCancels(Crc(MessageBits(d)), w);
    }
  }

  /** The check bytes hold the bits of the remainder in order. */
  lemma CheckBits(d: seq<byte>)
    ensures Crc(MessageBits(d)) == ToBits(CheckBytes(d)[0], 8) + ToBits(CheckBytes(d)[1], 8)
  {
    CrcBound(d);
    hide CrcValue, CheckBytes, MessageBits, ToBits, Crc;
    var c := CheckBytes(d);
    assert CrcValue(d) / 256 == c[0] && CrcValue(d) % 256 == c[1];
    SplitWord(CrcValue(d));
  }

  /** A block followed by its check bytes. */
  predicate Intact(p: seq<byte>) {
    |p| >= 2 && p[|p| - 2..] == CheckBytes(p[..|p| - 2])
  }

  /** A burst of at most sixteen bits anywhere in an intact packet, its check bytes included, is
      detected: the result is not intact. */
  lemma PacketBurstDetected(p: seq<byte>, q: seq<byte>, i: nat)
    requires Intact(p) && |p| == |q| && p != q
    requires forall j :: 0 <= j < 8 * |p| && (j < i || i + 16 <= j) ==> MessageBits(p)[j] == MessageBits(q)[j]
    ensures !Intact(q)
  {
    hide CheckBytes, Remainder, MessageBits, Crc, CrcValue;
    if Intact(q) {
      IntactDivides(p);
      IntactDivides(q);
      if MessageBits(p) == MessageBits(q) {
        MessageBitsInjective(p, q);
      }
      BurstDetected(MessageBits(p), MessageBits(q), i);
      assert false;
    }
  }

  lemma IntactDivides(p: seq<byte>)
    requires Intact(p)
    ensures Crc(MessageBits(p)) == Zeros(16)
  {
    hide CheckBytes, MessageBits, CrcValue, Divide;
    var d, c := p[..|p| - 2], p[|p| - 2..];
    assert c == [c[0], c[1]] && p == d + [c[0], c[1]];
    AcceptedExactly(d, c[0], c[1]);
    DivideAppend(Zeros(16), MessageBits(p), Zeros(16));
    DivideZeros(16);
  }

  lemma AddCancels(a: seq<bool>, b: seq<bool>)
    requires |a| == |b| && a != b
    ensures Add(a, b) != Zeros(|a|)
  {
    var i :| 0 <= i < |a| && a[i] != b[i];
    assert Add(a, b)[i];
  }

  lemma TailRemainder(d: seq<byte>, c0: byte, c1: byte)
    ensures Remainder(MessageBits(d + [c0, c1])) == Add(Crc(MessageBits(d)), ToBits(c0, 8) + ToBits(c1, 8))
  {
    var m, w := MessageBits(d), ToBits(c0, 8) + ToBits(c1, 8);
    assert MessageBits(d + [c0, c1]) == m + w by {
      var e := d + [c0, c1];
      assert e[..|d| + 1] == d + [c0] && (d + [c0])[..|d|] == d;
      assert MessageBits(e) == MessageBits(d + [c0]) + ToBits(c1, 8);
      assert MessageBits(d + [c0]) == m + ToBits(c0, 8);
    }
    hide ToBits, MessageBits;
    DivideAppend(Zeros(16), m, w);
    DivideAppend(Zeros(16), m, Zeros(16));
    var h := Remainder(m);
    AddZeros(h);
    AddZeros(w);
    DivideAdd(h, Zeros(16), Zeros(16), w);
    ShiftIn(16, [], w);
    assert Zeros(16) + [] == Zeros(16) && Zeros(0) + ([] + w) == w;
  }
}
