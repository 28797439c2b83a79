/** The CRC-16 lookup table of sw/lib/hal/spi_sdcard.c:57-79, in rows of sixteen words, each word
    as its four hexadecimal digits, and the rule by which the entries follow from each other. */
module Crc16Table {

  datatype Word = W(a: nat, b: nat, c: nat, d: nat) {
    function Num(): nat {
      4096 * a + 256 * b + 16 * c + d
    }
  }

  const ROW0: seq<Word> := [
    W(0, 0, 0, 0), W(1, 0, 2, 1), W(2, 0, 4, 2), W(3, 0, 6, 3),
    W(4, 0, 8, 4), W(5, 0, 0xA, 5), W(6, 0, 0xC, 6), W(7, 0, 0xE, 7),
    W(8, 1, 0, 8), W(9, 1, 2, 9), W(0xA, 1, 4, 0xA), W(0xB, 1, 6, 0xB),
    W(0xC, 1, 8, 0xC), W(0xD, 1, 0xA, 0xD), W(0xE, 1, 0xC, 0xE), W(0xF, 1, 0xE, 0xF)]
  const ROW1: seq<Word> := [
    W(1, 2, 3, 1), W(0, 2, 1, 0), W(3, 2, 7, 3), W(2, 2, 5, 2),
    W(5, 2, 0xB, 5), W(4, 2, 9, 4), W(7, 2, 0xF, 7), W(6, 2, 0xD, 6),
    W(9, 3, 3, 9), W(8, 3, 1, 8), W(0xB, 3, 7, 0xB), W(0xA, 3, 5, 0xA),
    W(0xD, 3, 0xB, 0xD), W(0xC, 3, 9, 0xC), W(0xF, 3, 0xF, 0xF), W(0xE, 3, 0xD, 0xE)]
  const ROW2: seq<Word> := [
    W(2, 4, 6, 2), W(3, 4, 4, 3), W(0, 4, 2, 0), W(1, 4, 0, 1),
    W(6, 4, 0xE, 6), W(7, 4, 0xC, 7), W(4, 4, 0xA, 4), W(5, 4, 8, 5),
    W(0xA, 5, 6, 0xA), W(0xB, 5, 4, 0xB), W(8, 5, 2, 8), W(9, 5, 0, 9),
    W(0xE, 5, 0xE, 0xE), W(0xF, 5, 0xC, 0xF), W(0xC, 5, 0xA, 0xC), W(0xD, 5, 8, 0xD)]
  const ROW3: seq<Word> := [
    W(3, 6, 5, 3), W(2, 6, 7, 2), W(1, 6, 1, 1), W(0, 6, 3, 0),
    W(7, 6, 0xD, 7), W(6, 6, 0xF, 6), W(5, 6, 9, 5), W(4, 6, 0xB, 4),
    W(0xB, 7, 5, 0xB), W(0xA, 7, 7, 0xA), W(9, 7, 1, 9), W(8, 7, 3, 8),
    W(0xF, 7, 0xD, 0xF), W(0xE, 7, 0xF, 0xE), W(0xD, 7, 9, 0xD), W(0xC, 7, 0xB, 0xC)]
  const ROW4: seq<Word> := [
    W(4, 8, 0xC, 4), W(5, 8, 0xE, 5), W(6, 8, 8, 6), W(7, 8, 0xA, 7),
    W(0, 8, 4, 0), W(1, 8, 6, 1), W(2, 8, 0, 2), W(3, 8, 2, 3),
    W(0xC, 9, 0xC, 0xC), W(0xD, 9, 0xE, 0xD), W(0xE, 9, 8, 0xE), W(0xF, 9, 0xA, 0xF),
    W(8, 9, 4, 8), W(9, 9, 6, 9), W(0xA, 9, 0, 0xA), W(0xB, 9, 2, 0xB)]
  const ROW5: seq<Word> := [
    W(5, 0xA, 0xF, 5), W(4, 0xA, 0xD, 4), W(7, 0xA, 0xB, 7), W(6, 0xA, 9, 6),
    W(1, 0xA, 7, 1), W(0, 0xA, 5, 0), W(3, 0xA, 3, 3), W(2, 0xA, 1, 2),
    W(0xD, 0xB, 0xF, 0xD), W(0xC, 0xB, 0xD, 0xC), W(0xF, 0xB, 0xB, 0xF), W(0xE, 0xB, 9, 0xE),
    W(9, 0xB, 7, 9), W(8, 0xB, 5, 8), W(0xB, 0xB, 3, 0xB), W(0xA, 0xB, 1, 0xA)]
  const ROW6: seq<Word> := [
    W(6, 0xC, 0xA, 6), W(7, 0xC, 8, 7), W(4, 0xC, 0xE, 4), W(5, 0xC, 0xC, 5),
    W(2, 0xC, 2, 2), W(3, 0xC, 0, 3), W(0, 0xC, 6, 0), W(1, 0xC, 4, 1),
    W(0xE, 0xD, 0xA, 0xE), W(0xF, 0xD, 8, 0xF), W(0xC, 0xD, 0xE, 0xC), W(0xD, 0xD, 0xC, 0xD),
    W(0xA, 0xD, 2, 0xA), W(0xB, 0xD, 0, 0xB), W(8, 0xD, 6, 8), W(9, 0xD, 4, 9)]
  const ROW7: seq<Word> := [
    W(7, 0xE, 9, 7), W(6, 0xE, 0xB, 6), W(5, 0xE, 0xD, 5), W(4, 0xE, 0xF, 4),
    W(3, 0xE, 1, 3), W(2, 0xE, 3, 2), W(1, 0xE, 5, 1), W(0, 0xE, 7, 0),
    W(0xF, 0xF, 9, 0xF), W(0xE, 0xF, 0xB, 0xE), W(0xD, 0xF, 0xD, 0xD), W(0xC, 0xF, 0xF, 0xC),
    W(0xB, 0xF, 1, 0xB), W(0xA, 0xF, 3, 0xA), W(9, 0xF, 5, 9), W(8, 0xF, 7, 8)]
  const ROW8: seq<Word> := [
    W(9, 1, 8, 8), W(8, 1, 0xA, 9), W(0xB, 1, 0xC, 0xA), W(0xA, 1, 0xE, 0xB),
    W(0xD, 1, 0, 0xC), W(0xC, 1, 2, 0xD), W(0xF, 1, 4, 0xE), W(0xE, 1, 6, 0xF),
    W(1, 0, 8, 0), W(0, 0, 0xA, 1), W(3, 0, 0xC, 2), W(2, 0, 0xE, 3),
    W(5, 0, 0, 4), W(4, 0, 2, 5), W(7, 0, 4, 6), W(6, 0, 6, 7)]
  const ROW9: seq<Word> := [
    W(8, 3, 0xB, 9), W(9, 3, 9, 8), W(0xA, 3, 0xF, 0xB), W(0xB, 3, 0xD, 0xA),
    W(0xC, 3, 3, 0xD), W(0xD, 3, 1, 0xC), W(0xE, 3, 7, 0xF), W(0xF, 3, 5, 0xE),
    W(0, 2, 0xB, 1), W(1, 2, 9, 0), W(2, 2, 0xF, 3), W(3, 2, 0xD, 2),
    W(4, 2, 3, 5), W(5, 2, 1, 4), W(6, 2, 7, 7), W(7, 2, 5, 6)]
  const ROWA: seq<Word> := [
    W(0xB, 5, 0xE, 0xA), W(0xA, 5, 0xC, 0xB), W(9, 5, 0xA, 8), W(8, 5, 8, 9),
    W(0xF, 5, 6, 0xE), W(0xE, 5, 4, 0xF), W(0xD, 5, 2, 0xC), W(0xC, 5, 0, 0xD),
    W(3, 4, 0xE, 2), W(2, 4, 0xC, 3), W(1, 4, 0xA, 0), W(0, 4, 8, 1),
    W(7, 4, 6, 6), W(6, 4, 4, 7), W(5, 4, 2, 4), W(4, 4, 0, 5)]
  const ROWB: seq<Word> := [
    W(0xA, 7, 0xD, 0xB), W(0xB, 7, 0xF, 0xA), W(8, 7, 9, 9), W(9, 7, 0xB, 8),
    W(0xE, 7, 5, 0xF), W(0xF, 7, 7, 0xE), W(0xC, 7, 1, 0xD), W(0xD, 7, 3, 0xC),
    W(2, 6, 0xD, 3), W(3, 6, 0xF, 2), W(0, 6, 9, 1), W(1, 6, 0xB, 0),
    W(6, 6, 5, 7), W(7, 6, 7, 6), W(4, 6, 1, 5), W(5, 6, 3, 4)]
  const ROWC: seq<Word> := [
    W(0xD, 9, 4, 0xC), W(0xC, 9, 6, 0xD), W(0xF, 9, 0, 0xE), W(0xE, 9, 2, 0xF),
    W(9, 9, 0xC, 8), W(8, 9, 0xE, 9), W(0xB, 9, 8, 0xA), W(0xA, 9, 0xA, 0xB),
    W(5, 8, 4, 4), W(4, 8, 6, 5), W(7, 8, 0, 6), W(6, 8, 2, 7),
    W(1, 8, 0xC, 0), W(0, 8, 0xE, 1), W(3, 8, 8, 2), W(2, 8, 0xA, 3)]
  const ROWD: seq<Word> := [
    W(0xC, 0xB, 7, 0xD), W(0xD, 0xB, 5, 0xC), W(0xE, 0xB, 3, 0xF), W(0xF, 0xB, 1, 0xE),
    W(8, 0xB, 0xF, 9), W(9, 0xB, 0xD, 8), W(0xA, 0xB, 0xB, 0xB), W(0xB, 0xB, 9, 0xA),
    W(4, 0xA, 7, 5), W(5, 0xA, 5, 4), W(6, 0xA, 3, 7), W(7, 0xA, 1, 6),
    W(0, 0xA, 0xF, 1), W(1, 0xA, 0xD, 0), W(2, 0xA, 0xB, 3), W(3, 0xA, 9, 2)]
  const ROWE: seq<Word> := [
    W(0xF, 0xD, 2, 0xE), W(0xE, 0xD, 0, 0xF), W(0xD, 0xD, 6, 0xC), W(0xC, 0xD, 4, 0xD),
    W(0xB, 0xD, 0xA, 0xA), W(0xA, 0xD, 8, 0xB), W(9, 0xD, 0xE, 8), W(8, 0xD, 0xC, 9),
    W(7, 0xC, 2, 6), W(6, 0xC, 0, 7), W(5, 0xC, 6, 4), W(4, 0xC, 4, 5),
    W(3, 0xC, 0xA, 2), W(2, 0xC, 8, 3), W(1, 0xC, 0xE, 0), W(0, 0xC, 0xC, 1)]
  const ROWF: seq<Word> := [
    W(0xE, 0xF, 1, 0xF), W(0xF, 0xF, 3, 0xE), W(0xC, 0xF, 5, 0xD), W(0xD, 0xF, 7, 0xC),
    W(0xA, 0xF, 9, 0xB), W(0xB, 0xF, 0xB, 0xA), W(8, 0xF, 0xD, 9), W(9, 0xF, 0xF, 8),
    W(6, 0xE, 1, 7), W(7, 0xE, 3, 6), W(4, 0xE, 5, 5), W(5, 0xE, 7, 4),
    W(2, 0xE, 9, 3), W(3, 0xE, 0xB, 2), W(0, 0xE, 0xD, 1), W(1, 0xE, 0xF, 0)]

  function Row(h: nat): (row: seq<Word>)
    ensures |row| == 16
  {
    if h < 4 then (match h case 0 => ROW0 case 1 => ROW1 case 2 => ROW2 case _ => ROW3)
    else if h < 8 then (match h case 4 => ROW4 case 5 => ROW5 case 6 => ROW6 case _ => ROW7)
    else if h < 12 then (match h case 8 => ROW8 case 9 => ROW9 case 10 => ROWA case _ => ROWB)
    else (match h case 12 => ROWC case 13 => ROWD case 14 => ROWE case _ => ROWF)
  }

  function Entry(k: nat): Word
    requires k < 256
  {
    Row(k / 16)[k % 16]
  }

  function Table(k: nat): nat
    requires k < 256
  {
    Entry(k).Num()
  }

  /** The lowest bit of a digit inverted. */
  function Flip1(d: nat): nat {
    if d % 2 == 0 then d + 1 else d - 1
  }

  /** The second lowest bit of a digit inverted. */
  function Flip2(d: nat): nat {
    if d % 4 < 2 then d + 2 else d - 2
  }

  /** Exclusive or with 0x1021, which holds the terms x^12, x^5 and 1. */
  function Flip(x: Word): Word {
    W(Flip1(x.a), x.b, Flip2(x.c), Flip1(x.d))
  }

  function Twice(d: nat, below: nat): int {
    (if d < 8 then 2 * d else 2 * d - 16) + (if below < 8 then 0 else 1)
  }

  predicate IsTwice(x: Word, y: Word) {
    y.a == Twice(x.a, x.b) && y.b == Twice(x.b, x.c) && y.c == Twice(x.c, x.d) && y.d == Twice(x.d, 0)
  }

  predicate Digits(x: Word) {
    x.a < 16 && x.b < 16 && x.c < 16 && x.d < 16
  }

  /** `y` is `x` after one more zero bit, and `z` is `y` plus the generator. */
  predicate Pair(x: Word, y: Word, z: Word) {
    Digits(x) && z == Flip(y) && IsTwice(x, if x.a < 8 then y else z)
  }

  // Entries 2j and 2j+1 against entry j, eight entries j at a time.

  lemma Row0(i: nat)
    requires i < 8
    ensures Pair(ROW0[i], ROW0[2 * i], ROW0[2 * i + 1])
  {}

  lemma Row1(i: nat)
    requires i < 8
    ensures Pair(ROW0[i + 8], ROW1[2 * i], ROW1[2 * i + 1])
  {}

  lemma Row2(i: nat)
    requires i < 8
    ensures Pair(ROW1[i], ROW2[2 * i], ROW2[2 * i + 1])
  {}

  lemma Row3(i: nat)
    requires i < 8
    ensures Pair(ROW1[i + 8], ROW3[2 * i], ROW3[2 * i + 1])
  {}

  lemma Row4(i: nat)
    requires i < 8
    ensures Pair(ROW2[i], ROW4[2 * i], ROW4[2 * i + 1])
  {}

  lemma Row5(i: nat)
    requires i < 8
    ensures Pair(ROW2[i + 8], ROW5[2 * i], ROW5[2 * i + 1])
  {}

  lemma Row6(i: nat)
    requires i < 8
    ensures Pair(ROW3[i], ROW6[2 * i], ROW6[2 * i + 1])
  {}

  lemma Row7(i: nat)
    requires i < 8
    ensures Pair(ROW3[i + 8], ROW7[2 * i], ROW7[2 * i + 1])
  {}

  lemma Row8(i: nat)
    requires i < 8
    ensures Pair(ROW4[i], ROW8[2 * i], ROW8[2 * i + 1])
  {}

  lemma Row9(i: nat)
    requires i < 8
    ensures Pair(ROW4[i + 8], ROW9[2 * i], ROW9[2 * i + 1])
  {}

  lemma RowA(i: nat)
    requires i < 8
    ensures Pair(ROW5[i], ROWA[2 * i], ROWA[2 * i + 1])
  {}

  lemma RowB(i: nat)
    requires i < 8
    ensures Pair(ROW5[i + 8], ROWB[2 * i], ROWB[2 * i + 1])
  {}

  lemma RowC(i: nat)
    requires i < 8
    ensures Pair(ROW6[i], ROWC[2 * i], ROWC[2 * i + 1])
  {}

  lemma RowD(i: nat)
    requires i < 8
    ensures Pair(ROW6[i + 8], ROWD[2 * i], ROWD[2 * i + 1])
  {}

  lemma RowE(i: nat)
    requires i < 8
    ensures Pair(ROW7[i], ROWE[2 * i], ROWE[2 * i + 1])
  {}

  lemma RowF(i: nat)
    requires i < 8
    ensures Pair(ROW7[i + 8], ROWF[2 * i], ROWF[2 * i + 1])
  {}

  lemma Quarter0(h: nat, i: nat)
    requires 0 <= h < 4 && i < 8
    ensures Pair(Row(h / 2)[if h % 2 == 0 then i else i + 8], Row(h)[2 * i], Row(h)[2 * i + 1])
  {
    match h
    case 0 => Row0(i);
    case 1 => Row1(i);
    case 2 => Row2(i);
    case _ => Row3(i);
  }

  lemma Quarter1(h: nat, i: nat)
    requires 4 <= h < 8 && i < 8
    ensures Pair(Row(h / 2)[if h % 2 == 0 then i else i + 8], Row(h)[2 * i], Row(h)[2 * i + 1])
  {
    match h
    case 4 => Row4(i);
    case 5 => Row5(i);
    case 6 => Row6(i);
    case _ => Row7(i);
  }

  lemma Quarter2(h: nat, i: nat)
    requires 8 <= h < 12 && i < 8
    ensures Pair(Row(h / 2)[if h % 2 == 0 then i else i + 8], Row(h)[2 * i], Row(h)[2 * i + 1])
  {
    match h
    case 8 => Row8(i);
    case 9 => Row9(i);
    case 10 => RowA(i);
    case _ => RowB(i);
  }

  lemma Quarter3(h: nat, i: nat)
    requires 12 <= h < 16 && i < 8
    ensures Pair(Row(h / 2)[if h % 2 == 0 then i else i + 8], Row(h)[2 * i], Row(h)[2 * i + 1])
  {
    match h
    case 12 => RowC(i);
    case 13 => RowD(i);
    case 14 => RowE(i);
    case _ => RowF(i);
  }

  /** Entry 2j is entry j shifted once, entry 2j+1 is that plus the generator. */
  lemma TablePair(j: nat)
    requires j < 128
    ensures Pair(Entry(j), Entry(2 * j), Entry(2 * j + 1))
  {
    var h, i := j / 8, j % 8;
    assert 2 * j / 16 == (2 * j + 1) / 16 == h && 2 * j % 16 == 2 * i && (2 * j + 1) % 16 == 2 * i + 1;
    assert j / 16 == h / 2 && j % 16 == if h % 2 == 0 then i else i + 8;
    if h < 4 {
      Quarter0(h, i);
    } else if h < 8 {
      Quarter1(h, i);
    } else if h < 12 {
      Quarter2(h, i);
    } else {
      Quarter3(h, i);
    }
  }
}
