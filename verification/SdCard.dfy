/** The SPI wire between the driver and an SD card, and what a card does on it. A card is any
    function from the history of the wire to the next byte it drives. `Serves` singles out the
    cards that follow the block-read protocol of section 7.2 of the SD Physical Layer Simplified
    Specification, with latencies of their own choice. */
module SdCard {
  import opened Bits

  datatype Event =
    | Mosi(b: byte)   // sent by the driver on the card's chip select
    | Miso(b: byte)   // received on the card's chip select
    | CsFree          // eight cycles on the dummy chip select

  type Wire = seq<Event>
  type Card = Wire -> byte

  function Sends(d: seq<byte>): (w: Wire)
    ensures |w| == |d|
  {
    seq(|d|, i requires 0 <= i < |d| => Mosi(d[i]))
  }

  function Receives(d: seq<byte>): (w: Wire)
    ensures |w| == |d|
  {
    seq(|d|, i requires 0 <= i < |d| => Miso(d[i]))
  }

  /** The next `n` bytes `card` drives if they are clocked out now. */
  function Stream(card: Card, w: Wire, n: nat): (d: seq<byte>)
    ensures |d| == n
  {
    if n == 0 then [] else
      var d := Stream(card, w, n - 1);
      d + [card(w + Receives(d))]
  }

  /** The bytes the driver sent. */
  function Sent(w: Wire): seq<byte> {
    if w == [] then [] else
      Sent(w[..|w| - 1]) + (if w[|w| - 1].Mosi? then [w[|w| - 1].b] else [])
  }

  // ----- The protocol seen from the card

  datatype Phase =
    | Idle
    | Frame(bytes: seq<byte>)                      // inside a six-byte command
    | Answer(block: nat, multi: bool, wait: nat)   // before R1 of CMD17 or CMD18
    | Ready(block: nat, multi: bool, wait: nat)    // before the token of `block`
    | Data(block: nat, multi: bool, pos: nat)      // before byte `pos` of its 514
    | Refused                                      // after an error response or token
    | Stuff                                        // CMD12, before the stuff byte
    | StopAnswer(wait: nat)
    | StopBusy(wait: nat)

  /** The 32-bit argument of a command frame, most significant byte first. */
  function Argument(f: seq<byte>): nat
    requires |f| == 6
  {
    var a: nat, b: nat, c: nat, d: nat := f[1], f[2], f[3], f[4];
    0x100_0000 * a + 0x1_0000 * b + 0x100 * c + d
  }

  function Accept(f: seq<byte>): Phase
    requires |f| == 6
  {
    if f[0] == 0x51 then Answer(Argument(f), false, 0)
    else if f[0] == 0x52 then Answer(Argument(f), true, 0)
    else if f[0] == 0x4C then Stuff
    else Idle
  }

  function React(p: Phase, e: Event): Phase {
    match e
    case CsFree => if p.Frame? then Idle else p
    case Mosi(b) =>
      if p.Frame? && |p.bytes| < 5 then Frame(p.bytes + [b])
      else if p.Frame? && |p.bytes| == 5 then Accept(p.bytes + [b])
      else Frame([b])
    case Miso(b) =>
      match p
      case Answer(k, m, n) => if b >= 0x80 then Answer(k, m, n + 1) else if b == 0 then Ready(k, m, 0) else Refused
      case Ready(k, m, n) => if b == 0xFF then Ready(k, m, n + 1) else if b == 0xFE then Data(k, m, 0) else Refused
      case Data(k, m, pos) => if pos + 1 < 514 then Data(k, m, pos + 1) else if m then Ready(k + 1, m, 0) else Idle
      case Stuff => StopAnswer(0)
      case StopAnswer(n) => if b >= 0x80 then StopAnswer(n + 1) else StopBusy(0)
      case StopBusy(n) => if b == 0 then StopBusy(n + 1) else Idle
      case _ => p
  }

  function After(w: Wire): Phase {
    if w == [] then Idle else React(After(w[..|w| - 1]), w[|w| - 1])
  }

  // ----- Cards that answer reads

  /** Packet `k` is what the card sends for block `k`: 512 data bytes and two check bytes. */
  type Packets = seq<seq<byte>>

  predicate Sized(blocks: Packets) {
    forall k :: 0 <= k < |blocks| ==> |blocks[k]| == 514
  }

  /** What a card serving `blocks` may drive: it may delay or refuse, but not send other data. */
  predicate Allowed(blocks: Packets, p: Phase, b: byte) {
    match p
    case Ready(k, _, _) => b == 0xFE ==> k < |blocks|
    case Data(k, _, pos) => k < |blocks| && pos < |blocks[k]| ==> b == blocks[k][pos]
    case Refused => b != 0xFE
    case _ => true
  }

  ghost predicate Serves(card: Card, blocks: Packets) {
    Sized(blocks) && forall w :: Allowed(blocks, After(w), card(w))
  }

  /** What it may drive if it also stays within the driver's patience and refuses nothing. */
  predicate InTime(blocks: Packets, p: Phase, b: byte) {
    match p
    case Answer(k, _, n) => k < |blocks| ==> b == 0 || (b >= 0x80 && n < 6)
    case Ready(k, _, n) => k < |blocks| ==> b == 0xFE || (b == 0xFF && n < 9998)
    case StopAnswer(n) => b < 0x80 || n < 6
    case StopBusy(n) => b != 0 || n < 9998
    case _ => true
  }

  ghost predicate Prompt(card: Card, blocks: Packets) {
    forall w :: InTime(blocks, After(w), card(w))
  }

  /** A card without delays. */
  function Ideal(blocks: Packets): Card
    requires Sized(blocks)
  {
    (w: Wire) =>
      match After(w)
      case Ready(k, _, _) => if k < |blocks| then 0xFE else 0xFF
      case Data(k, _, pos) => if k < |blocks| && pos < 514 then blocks[k][pos] else 0xFF
      case Refused => 0xFF
      case StopBusy(_) => 1
      case _ => 0
  }

  /** Both assumptions on cards can be met, for any packets. */
  lemma IdealCard(blocks: Packets)
    requires Sized(blocks)
    ensures Serves(Ideal(blocks), blocks) && Prompt(Ideal(blocks), blocks)
  {}

  /** Byte `a` of the card's contents. */
  function ByteAt(blocks: Packets, a: nat): byte
    requires Sized(blocks) && a / 512 < |blocks|
  {
    blocks[a / 512][a % 512]
  }

  // ----- Wire lemmas

  lemma AfterOne(w: Wire, e: Event)
    ensures After(w + [e]) == React(After(w), e)
    ensures Sent(w + [e]) == Sent(w) + (if e.Mosi? then [e.b] else [])
  {
    assert (w + [e])[..|w|] == w;
  }

  lemma {:induction false} SentAppend(v: Wire, w: Wire)
    ensures Sent(v + w) == Sent(v) + Sent(w)
  {
    if w == [] {
      assert v + w == v;
    } else {
      var k := |w| - 1;
      SentAppend(v, w[..k]);
      assert (v + w)[..|v + w| - 1] == v + w[..k];
    }
  }

  lemma {:induction false} SentSends(d: seq<byte>)
    ensures Sent(Sends(d)) == d
  {
    if d != [] {
      SentSends(d[..|d| - 1]);
      assert Sends(d)[..|d| - 1] == Sends(d[..|d| - 1]);
    }
  }

  lemma FrameByte(w: Wire, p: seq<byte>, b: byte)
    requires After(w) == Frame(p) && |p| <= 5
    ensures After(w + [Mosi(b)]) == if |p| < 5 then Frame(p + [b]) else Accept(p + [b])
  {
    AfterOne(w, Mosi(b));
  }

  lemma FirstByte(w: Wire, b: byte)
    requires !After(w).Frame?
    ensures After(w + [Mosi(b)]) == Frame([b])
  {
    AfterOne(w, Mosi(b));
  }

  lemma SendsLast(w: Wire, d: seq<byte>, n: nat)
    requires n < |d|
    ensures w + Sends(d[..n + 1]) == w + Sends(d[..n]) + [Mosi(d[n])]
    ensures d[..n + 1] == d[..n] + [d[n]]
  {
    assert Sends(d[..n + 1]) == Sends(d[..n]) + [Mosi(d[n])];
  }

  lemma AfterFrame(w: Wire, f: seq<byte>)
    requires |f| == 6 && !After(w).Frame?
    ensures After(w + Sends(f)) == Accept(f)
  {
    FramePart(w, f, 5);
    hide After, React, Sends, Accept;
    SendsLast(w, f, 5);
    FrameByte(w + Sends(f[..5]), f[..5], f[5]);
    assert f[..6] == f;
  }

  lemma {:induction false} FramePart(w: Wire, f: seq<byte>, n: nat)
    requires |f| == 6 && !After(w).Frame? && 1 <= n <= 5
    ensures After(w + Sends(f[..n])) == Frame(f[..n])
  {
    hide After, React;
    if n == 1 {
      FirstByte(w, f[0]);
      assert Sends(f[..1]) == [Mosi(f[0])];
    } else {
      FramePart(w, f, n - 1);
      hide Sends;
      SendsLast(w, f, n - 1);
      FrameByte(w + Sends(f[..n - 1]), f[..n - 1], f[n - 1]);
    }
  }

  /** The phase once the last check byte of a block is through. */
  function AfterBlock(k: nat, m: bool): Phase {
    if m then Ready(k + 1, m, 0) else Idle
  }

  /** Inside a packet every byte counts, whatever it is. */
  lemma {:induction false} AfterData(w: Wire, d: seq<byte>, k: nat, m: bool, pos: nat)
    requires After(w) == Data(k, m, pos) && pos + |d| <= 514
    ensures After(w + Receives(d)) == if pos + |d| < 514 || d == [] then Data(k, m, pos + |d|) else AfterBlock(k, m)
  {
    if d == [] {
      assert w + Receives(d) == w;
    } else {
      var n := |d| - 1;
      AfterData(w, d[..n], k, m, pos);
      ReceivesLast(w, d);
      AfterOne(w + Receives(d[..n]), Miso(d[n]));
    }
  }

  lemma {:induction false} AfterRefused(w: Wire, d: seq<byte>)
    requires After(w) == Refused
    ensures After(w + Receives(d)) == Refused
  {
    if d == [] {
      assert w + Receives(d) == w;
    } else {
      var n := |d| - 1;
      AfterRefused(w, d[..n]);
      ReceivesLast(w, d);
      AfterOne(w + Receives(d[..n]), Miso(d[n]));
    }
  }

  lemma ReceivesLast(w: Wire, d: seq<byte>)
    requires d != []
    ensures w + Receives(d) == w + Receives(d[..|d| - 1]) + [Miso(d[|d| - 1])]
  {
    assert Receives(d) == Receives(d[..|d| - 1]) + [Miso(d[|d| - 1])];
  }

  lemma DataByte(card: Card, blocks: Packets, w: Wire, k: nat, m: bool, pos: nat)
    requires Serves(card, blocks) && After(w) == Data(k, m, pos) && k < |blocks| && pos < 514
    ensures |blocks[k]| == 514 && card(w) == blocks[k][pos]
  {
    assert Allowed(blocks, After(w), card(w));
  }

  /** A serving card inside a packet sends the rest of it in order. */
  lemma {:induction false} StreamData(card: Card, blocks: Packets, w: Wire, k: nat, m: bool, pos: nat, n: nat)
    requires Serves(card, blocks) && After(w) == Data(k, m, pos)
    requires k < |blocks| && |blocks[k]| == 514 && pos + n <= 514
    ensures Stream(card, w, n) == blocks[k][pos..pos + n]
  {
    hide Serves, React, After;
    if n > 0 {
      StreamData(card, blocks, w, k, m, pos, n - 1);
      StreamNext(card, w, n - 1);
      AfterData(w, Stream(card, w, n - 1), k, m, pos);
      hide Stream, Receives;
      DataByte(card, blocks, w + Receives(Stream(card, w, n - 1)), k, m, pos + n - 1);
      assert blocks[k][pos..pos + n] == blocks[k][pos..pos + n - 1] + [blocks[k][pos + n - 1]];
    }
  }

  lemma StreamNext(card: Card, w: Wire, n: nat)
    ensures var d := Stream(card, w, n);
            var b := card(w + Receives(d));
            && Stream(card, w, n + 1) == d + [b]
            && w + Receives(Stream(card, w, n + 1)) == w + Receives(d) + [Miso(b)]
  {
    var d := Stream(card, w, n);
    var b := card(w + Receives(d));
    assert Receives(d + [b]) == Receives(d) + [Miso(b)];
  }

  lemma {:induction false} StreamAppend(card: Card, w: Wire, a: nat, b: nat)
    ensures var d := Stream(card, w, a);
            var v := w + Receives(d);
            && Stream(card, w, a + b) == d + Stream(card, v, b)
            && w + Receives(Stream(card, w, a + b)) == v + Receives(Stream(card, v, b))
  {
    var d := Stream(card, w, a);
    var v := w + Receives(d);
    if b == 0 {
      assert v + Receives([]) == v;
    } else {
      StreamAppend(card, w, a, b - 1);
      StreamNext(card, w, a + b - 1);
      StreamNext(card, v, b - 1);
    }
  }

  lemma StreamStart(card: Card, w: Wire)
    ensures Stream(card, w, 0) == [] && w + Receives(Stream(card, w, 0)) == w
  {}

  /** Clocking a byte in neither starts a command nor sends anything. */
  lemma MisoKeepsFrame(w: Wire, b: byte)
    requires !After(w).Frame?
    ensures !After(w + [Miso(b)]).Frame? && Sent(w + [Miso(b)]) == Sent(w)
  {
    AfterOne(w, Miso(b));
  }
}
