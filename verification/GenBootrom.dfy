/** The boot ROM generator util/gen_bootrom.py: padding, the printed case items, and what the emitted
    module answers when its text is read back. */
module GenBootrom {
  import opened Common
  import opened Bits

  // ----- Padding

  function Max(a: int, b: int): int {
    if a < b then b else a
  }

  /** The padded binary is as long as the least power of two that is at least 8 and covers the
      binary and the requested length. `k` is its exponent. */
  method PadBinary(binary: seq<byte>, pad: int) returns (padded: seq<byte>, ghost k: nat)
    ensures |padded| == Pow2(k) && k >= 3 && Max(|binary|, pad) <= |padded|
    ensures forall e :: 3 <= e < k ==> Pow2(e) < Max(|binary|, pad)
    ensures padded == binary + ZeroBytes(|padded| - |binary|)
  {
    var length := 8;
    k := 3;
    assert Pow2(3) == 8;
    while length < Max(|binary|, pad)
      invariant length == Pow2(k) && k >= 3
      invariant forall e :: 3 <= e < k ==> Pow2(e) < Max(|binary|, pad)
      decreases Max(|binary|, pad) - length
    {
      length := length * 2;
      k := k + 1;
    }
    padded := binary + ZeroBytes(length - |binary|);
  }

  // ----- Numbers in text

  const DIGITS: string := "0123456789abcdef"

  /** The value of a digit; 16 for other characters. */
  function DigitValue(c: char): (v: nat)
    ensures v <= 16
  {
    if '0' <= c <= '9' then (c as int) - ('0' as int)
    else if 'a' <= c <= 'f' then 10 + (c as int) - ('a' as int)
    else 16
  }

  function DigitChar(v: nat): (c: char)
    requires v < 16
    ensures DigitValue(c) == v
  {
    DIGITS[v]
  }

  function Digits(n: nat, b: nat): (s: string)
    requires 2 <= b <= 16
    ensures s != ""
  {
    if n < b then [DigitChar(n)] else Digits(n / b, b) + [DigitChar(n % b)]
  }

  /** A number with at least `w` digits. */
  function Padded(n: nat, b: nat, w: nat): string
    requires 2 <= b <= 16
  {
    var s := Digits(n, b);
    seq(if |s| < w then w - |s| else 0, _ => '0') + s
  }

  predicate AllDigits(s: string, b: nat) {
    forall i :: 0 <= i < |s| ==> DigitValue(s[i]) < b
  }

  /** Reading digits after those that make `acc`. */
  function Fold(acc: nat, s: string, b: nat): nat
    requires AllDigits(s, b)
    decreases |s|
  {
    if s == "" then acc else Fold(acc, s[..|s| - 1], b) * b + DigitValue(s[|s| - 1])
  }

  lemma FoldPush(acc: nat, s: string, c: char, b: nat)
    requires AllDigits(s, b) && DigitValue(c) < b
    ensures AllDigits(s + [c], b) && Fold(acc, s + [c], b) == Fold(acc, s, b) * b + DigitValue(c)
  {
    assert (s + [c])[..|s|] == s;
  }

  lemma Division(n: nat, b: nat)
    requires 2 <= b
    ensures n == n / b * b + n % b && n % b < b && (n >= b ==> n / b < n)
  {}

  lemma {:induction false} DigitsValue(n: nat, b: nat)
    requires 2 <= b <= 16
    ensures AllDigits(Digits(n, b), b) && Fold(0, Digits(n, b), b) == n
  {
    hide DigitChar, DigitValue, Fold, AllDigits;
    NoDigits(b);
    if n < b {
      FoldPush(0, "", DigitChar(n), b);
      assert "" + [DigitChar(n)] == Digits(n, b);
    } else {
      Division(n, b);
      DigitsValue(n / b, b);
      FoldPush(0, Digits(n / b, b), DigitChar(n % b), b);
    }
  }

  lemma NoDigits(b: nat)
    ensures AllDigits("", b) && Fold(0, "", b) == 0
  {}

  lemma {:induction false} ZerosFold(n: nat, s: string, b: nat)
    requires 2 <= b && AllDigits(s, b)
    ensures AllDigits(seq(n, _ => '0') + s, b) && Fold(0, seq(n, _ => '0') + s, b) == Fold(0, s, b)
    decreases |s|, n
  {
    var z := seq(n, _ => '0');
    if s != "" {
      var t, c := s[..|s| - 1], s[|s| - 1];
      ZerosFold(n, t, b);
      FoldPush(0, z + t, c, b);
      assert z + t + [c] == z + s;
    } else if n > 0 {
      ZerosFold(n - 1, "", b);
      FoldPush(0, seq(n - 1, _ => '0') + "", '0', b);
      assert seq(n - 1, _ => '0') + "" + ['0'] == z + s;
    } else {
      assert z + s == "";
    }
  }

  lemma PaddedValue(n: nat, b: nat, w: nat)
    requires 2 <= b <= 16
    ensures AllDigits(Padded(n, b, w), b) && Fold(0, Padded(n, b, w), b) == n && Padded(n, b, w) != ""
  {
    hide Digits, Fold, AllDigits;
    DigitsValue(n, b);
    var s := Digits(n, b);
    ZerosFold(if |s| < w then w - |s| else 0, s, b);
  }

  lemma {:induction false} FoldConcat(acc: nat, s: string, t: string, b: nat)
    requires AllDigits(s, b) && AllDigits(t, b)
    ensures AllDigits(s + t, b) && Fold(acc, s + t, b) == Fold(Fold(acc, s, b), t, b)
    decreases |t|
  {
    if t == "" {
      assert s + t == s;
    } else {
      var u, c := t[..|t| - 1], t[|t| - 1];
      FoldConcat(acc, s, u, b);
      FoldPush(acc, s + u, c, b);
      assert s + u + [c] == s + t;
    }
  }

  // ----- The printed words

  /** Consecutive pieces of `n` elements, the last one perhaps shorter. */
  function Chunks(s: seq<byte>, n: nat): (c: seq<seq<byte>>)
    requires n > 0
    ensures forall i :: 0 <= i < |c| ==> 0 < |c[i]| <= n
  {
    if s == [] then [] else if |s| <= n then [s] else [s[..n]] + Chunks(s[n..], n)
  }

  /** The bytes as two digits each, in reversed order. */
  function ReversedHex(word: seq<byte>): string {
    if word == [] then "" else ReversedHex(word[1..]) + Padded(word[0], 16, 2)
  }

  /** `format_word_hex`. */
  function WordHex(word: seq<byte>): string {
    seq(if |word| < 4 then 2 * (4 - |word|) else 0, _ => '0') + ReversedHex(word)
  }

  const HEAD: string := ": data_o = 32'h"
  const MIDDLE: string := " /* 0x"
  const TAIL: string := " */"
  const SEPARATOR: string := ";\n            "

  function Line(i: nat, word: seq<byte>): string {
    Padded(i, 10, 3) + (HEAD + (WordHex(word) + (MIDDLE + (Padded(4 * i, 16, 4) + TAIL))))
  }

  function Text(words: seq<seq<byte>>, i: nat): string
    decreases |words|
  {
    if words == [] then ""
    else if |words| == 1 then Line(i, words[0])
    else Line(i, words[0]) + (SEPARATOR + Text(words[1..], i + 1))
  }

  /** `format_binary`: the number of words and their case items. */
  function FormatBinary(binary: seq<byte>): (nat, string) {
    var words := Chunks(binary, 4);
    (|words|, Text(words, 0))
  }

  /** The line for word 3 of the compiled boot ROM, piece by piece as it stands in its module
      (hw/bootrom/cheshire_bootrom.sv:35). */
  lemma CompiledLine()
    ensures Line(3, [0x81, 0x44, 0x01, 0x45])
         == "003" + (": data_o = 32'h" + ("45014481" + (" /* 0x" + ("000c" + " */"))))
  {
    CompiledWord();
    assert Padded(3, 10, 3) == "003" by {
      assert Digits(3, 10) == "3";
    }
    assert Padded(12, 16, 4) == "000c" by {
      assert Digits(12, 16) == "c";
    }
    hide Padded, WordHex;
  }

  lemma CompiledWord()
    ensures WordHex([0x81, 0x44, 0x01, 0x45]) == "45014481"
  {
    TwoDigits(0x45, "45");
    TwoDigits(0x01, "01");
    TwoDigits(0x44, "44");
    TwoDigits(0x81, "81");
    hide Padded;
    HexOfFour(0x81, 0x44, 0x01, 0x45);
    assert "45" + "01" + "44" + "81" == "45014481";
  }

  lemma TwoDigits(b: byte, s: string)
    requires |s| == 2 && s[0] == DigitChar(b / 16) && s[1] == DigitChar(b % 16)
    ensures Padded(b, 16, 2) == s
  {
    hide DigitChar;
    assert Digits(b % 16, 16) == [DigitChar(b % 16)];
    if b < 16 {
      assert seq(1, _ => '0') == "0" == [DigitChar(0)];
    } else {
      assert Digits(b / 16, 16) == [DigitChar(b / 16)];
    }
  }

  lemma HexOfFour(a: byte, b: byte, c: byte, d: byte)
    ensures WordHex([a, b, c, d]) == Padded(d, 16, 2) + Padded(c, 16, 2) + Padded(b, 16, 2) + Padded(a, 16, 2)
  {
    hide Padded;
    var word := [a, b, c, d];
    assert word[1..] == [b, c, d] && [b, c, d][1..] == [c, d] && [c, d][1..] == [d] && [d][1..] == [];
    assert ReversedHex([d]) == "" + Padded(d, 16, 2);
    assert ReversedHex([c, d]) == ReversedHex([d]) + Padded(c, 16, 2);
    assert ReversedHex([b, c, d]) == ReversedHex([c, d]) + Padded(b, 16, 2);
    assert ReversedHex(word) == ReversedHex([b, c, d]) + Padded(a, 16, 2);
    assert seq(0, _ => '0') == "";
  }

  // ----- Reading the text back

  /** A case item: when `word` is `index`, `data_o` is `value`. */
  datatype Item = Item(index: nat, value: nat)

  /** A number in base `b` and what follows it. */
  function Scan(s: string, b: nat, acc: nat): (r: (nat, string))
    ensures |r.1| <= |s|
  {
    if s != "" && DigitValue(s[0]) < b then Scan(s[1..], b, acc * b + DigitValue(s[0])) else (acc, s)
  }

  function Expect(s: string, p: string): (r: Option<string>)
    ensures r.Some? ==> |r.value| + |p| == |s|
  {
    if p <= s then Some(s[|p|..]) else None
  }

  function ParseItem(s: string): (r: Option<(Item, string)>)
    ensures r.Some? ==> |r.value.1| < |s|
  {
    var (i, s1) := Scan(s, 10, 0);
    match Expect(s1, HEAD)
    case None => None
    case Some(s2) =>
      var (v, s3) := Scan(s2, 16, 0);
      match Expect(s3, MIDDLE)
      case None => None
      case Some(s4) =>
        match Expect(Scan(s4, 16, 0).1, TAIL)
        case None => None
        case Some(rest) => Some((Item(i, v), rest))
  }

  function Parse(s: string): Option<seq<Item>>
    decreases |s|
  {
    match ParseItem(s)
    case None => None
    case Some((item, rest)) =>
      if rest == "" then Some([item]) else
        match Expect(rest, SEPARATOR)
        case None => None
        case Some(more) =>
          match Parse(more)
          case None => None
          case Some(items) => Some([item] + items)
  }

  lemma {:induction false} ScanDigits(d: string, rest: string, b: nat, acc: nat)
    requires AllDigits(d, b) && (rest == "" || DigitValue(rest[0]) >= b)
    ensures Scan(d + rest, b, acc) == (Fold(acc, d, b), rest)
    decreases |d|
  {
    hide DigitValue;
    if d == "" {
      assert d + rest == rest;
    } else {
      var c, e := d[0], d[1..];
      assert (d + rest)[1..] == e + rest && [c] + e == d;
      assert [c][..0] == "";
      assert Fold(acc, [c], b) == acc * b + DigitValue(c);
      FoldConcat(acc, [c], e, b);
      ScanDigits(e, rest, b, acc * b + DigitValue(c));
    }
  }

  /** A number up to a fixed text that starts with no digit. */
  lemma ScanThen(d: string, p: string, rest: string, b: nat)
    requires AllDigits(d, b) && p != "" && DigitValue(p[0]) >= b
    ensures Scan(d + (p + rest), b, 0) == (Fold(0, d, b), p + rest) && Expect(p + rest, p) == Some(rest)
  {
    hide DigitValue, Fold;
    ScanDigits(d, p + rest, b, 0);
    assert (p + rest)[|p|..] == rest;
  }

  lemma ByteHex(acc: nat, v: byte)
    ensures AllDigits(Padded(v, 16, 2), 16) && Fold(acc, Padded(v, 16, 2), 16) == acc * 256 + (v as nat)
  {
    PaddedValue(v, 16, 2);
    var s := Padded(v, 16, 2);
    assert |s| == 2 by { assert Digits(v / 16, 16) == [DigitChar(v / 16)]; }
    hide Padded, DigitValue, Digits;
    var c, d := DigitValue(s[0]), DigitValue(s[1]);
    assert s[..1] == [s[0]] && s[..1][..0] == "";
    assert Fold(acc, s, 16) == Fold(acc, s[..1], 16) * 16 + d && Fold(acc, s[..1], 16) == acc * 16 + c;
    assert Fold(0, s, 16) == Fold(0, s[..1], 16) * 16 + d && Fold(0, s[..1], 16) == c;
  }

  lemma {:induction false} ReversedHexValue(word: seq<byte>)
    ensures AllDigits(ReversedHex(word), 16) && Fold(0, ReversedHex(word), 16) == LeValue(word)
  {
    hide Padded, AllDigits, DigitValue;
    NoDigits(16);
    if word != [] {
      ReversedHexValue(word[1..]);
      ByteHex(LeValue(word[1..]), word[0]);
      FoldConcat(0, ReversedHex(word[1..]), Padded(word[0], 16, 2), 16);
    }
  }

  /** A word prints as the number that its bytes make, least significant byte first. */
  lemma WordHexValue(word: seq<byte>)
    ensures AllDigits(WordHex(word), 16) && Fold(0, WordHex(word), 16) == LeValue(word)
  {
    hide Fold, AllDigits, ReversedHex;
    ReversedHexValue(word);
    ZerosFold(if |word| < 4 then 2 * (4 - |word|) else 0, ReversedHex(word), 16);
  }

  lemma ItemParsed(i: nat, word: seq<byte>, rest: string)
    ensures ParseItem(Line(i, word) + rest) == Some((Item(i, LeValue(word)), rest))
  {
    hide Padded, WordHex, AllDigits, Fold, Scan, Expect, LeValue;
    PaddedValue(i, 10, 3);
    WordHexValue(word);
    PaddedValue(4 * i, 16, 4);
    var s3 := MIDDLE + (Padded(4 * i, 16, 4) + (TAIL + rest));
    var s1 := HEAD + (WordHex(word) + s3);
    assert Line(i, word) + rest == Padded(i, 10, 3) + s1;
    ScanThen(Padded(i, 10, 3), HEAD, WordHex(word) + s3, 10);
    ScanThen(WordHex(word), MIDDLE, Padded(4 * i, 16, 4) + (TAIL + rest), 16);
    ScanThen(Padded(4 * i, 16, 4), TAIL, rest, 16);
  }

  function Items(words: seq<seq<byte>>, i: nat): seq<Item> {
    seq(|words|, j requires 0 <= j < |words| => Item(i + j, LeValue(words[j])))
  }

  lemma {:induction false} TextParsed(words: seq<seq<byte>>, i: nat)
    requires words != []
    ensures Parse(Text(words, i)) == Some(Items(words, i))
    decreases |words|
  {
    hide ParseItem, Line, LeValue;
    if |words| == 1 {
      ItemParsed(i, words[0], "");
      assert Line(i, words[0]) + "" == Line(i, words[0]);
      assert Items(words, i) == [Item(i, LeValue(words[0]))];
    } else {
      var more := Text(words[1..], i + 1);
      ItemParsed(i, words[0], SEPARATOR + more);
      TextParsed(words[1..], i + 1);
      assert (SEPARATOR + more)[|SEPARATOR|..] == more;
      assert Items(words, i) == [Item(i, LeValue(words[0]))] + Items(words[1..], i + 1);
    }
  }

  // ----- What the emitted module answers

  /** `$clog2`. */
  function Clog2(n: nat): nat {
    if n <= 1 then 0 else 1 + Clog2((n + 1) / 2)
  }

  lemma {:induction false} Clog2OfPow2(k: nat)
    ensures Clog2(Pow2(k)) == k
  {
    if k > 0 {
      Clog2OfPow2(k - 1);
      assert (Pow2(k) + 1) / 2 == Pow2(k - 1);
    }
  }

  /** The `case` statement with its default. */
  function Lookup(items: seq<Item>, w: nat): nat {
    if items == [] then 0 else if items[0].index == w then items[0].value else Lookup(items[1..], w)
  }

  /** The byte at `a` of the module with these words: the word index has `$clog2(NumWords)` bits. */
  function RomByte(numWords: nat, words: string, a: nat): Option<byte> {
    match Parse(words)
    case None => None
    case Some(items) => Some(LeBytes(Lookup(items, a / 4 % Pow2(Clog2(numWords))), 4)[a % 4])
  }

  lemma {:induction false} LookupItem(words: seq<seq<byte>>, i: nat, j: nat)
    requires j < |words|
    ensures Lookup(Items(words, i), i + j) == LeValue(words[j])
    decreases |words|
  {
    hide LeValue;
    if j > 0 {
      assert Items(words, i)[1..] == Items(words[1..], i + 1);
      LookupItem(words[1..], i + 1, j - 1);
    }
  }

  lemma {:induction false} ChunkAt(s: seq<byte>, n: nat, j: nat)
    requires |s| == 4 * n && j < n
    ensures |Chunks(s, 4)| == n && Chunks(s, 4)[j] == s[4 * j..4 * j + 4]
    decreases n
  {
    if n == 1 {
      assert s == s[0..4];
    } else {
      ChunkAt(s[4..], n - 1, if j > 0 then j - 1 else 0);
      if j > 0 {
        assert s[4..][4 * (j - 1)..4 * (j - 1) + 4] == s[4 * j..4 * j + 4];
      }
    }
  }

  /** Position in a memory of `n` words that repeats. */
  lemma WordAndByte(a: nat, n: nat)
    requires n > 0
    ensures a % (4 * n) == 4 * (a / 4 % n) + a % 4
  {
    var q, w, r := a / 4 / n, a / 4 % n, a % 4;
    assert a / 4 == q * n + w;
    assert a == q * (4 * n) + (4 * w + r);
    Unique(a, 4 * n, q, 4 * w + r);
  }

  lemma Unique(a: nat, n: nat, q: nat, r: nat)
    requires n > 0 && a == q * n + r && r < n
    ensures a % n == r
  {
    Quotients(q, a / n, n, r, a % n);
  }

  lemma Quotients(p: int, q: int, n: nat, r: int, s: int)
    requires p * n + r == q * n + s && 0 <= r < n && 0 <= s < n
    ensures r == s
  {
    Minus(p, q, n);
    Minus(q, p, n);
    if p > q {
      AtLeast(p - q, n);
    } else if p < q {
      AtLeast(q - p, n);
    }
  }

  lemma Minus(p: int, q: int, n: int)
    ensures (p - q) * n == p * n - q * n
  {}

  lemma AtLeast(d: int, n: nat)
    requires d >= 1
    ensures d * n >= n
  {}

  /** Printing and reading back: the module holds the padded binary, over and over. */
  lemma RomHolds(padded: seq<byte>, k: nat, a: nat)
    requires |padded| == Pow2(k) && k >= 3
    ensures var (n, t) := FormatBinary(padded); RomByte(n, t, a) == Some(padded[a % |padded|])
  {
    hide Parse, Text, Chunks, LeBytes, LeValue, Clog2;
    var n := Pow2(k - 2);
    assert |padded| == 4 * n;
    Clog2OfPow2(k - 2);
    WordAndByte(a, n);
    var w := a / 4 % n;
    var words := Chunks(padded, 4);
    ChunkAt(padded, n, w);
    TextParsed(words, 0);
    LookupItem(words, 0, w);
    LeOfValue(words[w]);
    assert words[w][a % 4] == padded[4 * w + a % 4];
  }

  /** The generator as a whole: address `a` reads the binary's byte, or zero past its end, over and
      over; the length is the least power of two that will do. */
  method Generate(binary: seq<byte>, pad: int) returns (numWords: nat, words: string)
    ensures 4 * numWords >= 8 && 4 * numWords >= Max(|binary|, pad) && exists k :: Pow2(k) == 4 * numWords
    ensures forall k :: Pow2(k) >= 8 && Pow2(k) >= Max(|binary|, pad) ==> 4 * numWords <= Pow2(k)
    ensures forall a: nat :: RomByte(numWords, words, a)
                          == Some(if a % (4 * numWords) < |binary| then binary[a % (4 * numWords)] else 0)
  {
    hide RomByte, FormatBinary;
    var padded, k := PadBinary(binary, pad);
    WordCount(padded, k);
    var (n, t) := FormatBinary(padded);
    numWords, words := n, t;
    forall a: nat
      ensures RomByte(numWords, words, a)
              == Some(if a % (4 * numWords) < |binary| then binary[a % (4 * numWords)] else 0)
    {
      RomHolds(padded, k, a);
    }
    forall e | Pow2(e) >= 8 && Pow2(e) >= Max(|binary|, pad) ensures 4 * numWords <= Pow2(e) {
      assert Pow2(2) == 4;
      if e < 3 {
        Pow2Grows(e, 2);
      } else if e >= k {
        Pow2Grows(k, e);
      }
    }
  }

  lemma {:induction false} Pow2Grows(k: nat, e: nat)
    requires k <= e
    ensures Pow2(k) <= Pow2(e)
    decreases e
  {
    if k < e {
      Pow2Grows(k, e - 1);
    }
  }

  lemma WordCount(padded: seq<byte>, k: nat)
    requires |padded| == Pow2(k) && k >= 3
    ensures |padded| == 4 * FormatBinary(padded).0 >= 8
  {
    hide Text;
    assert Pow2(k) == 4 * Pow2(k - 2) && Pow2(k - 2) == 2 * Pow2(k - 3);
    ChunkAt(padded, Pow2(k - 2), 0);
  }
}
