/** The SD-card block reader of sw/lib/hal/spi_sdcard.c over an arbitrary card. */
module SpiSdcard {
  import opened Common
  import opened Bits
  import opened SdCard
  import Crc16

  datatype Resp = R1 | R1b | R2 | R3 | R7

  function RespLen(resp: Resp): nat {
    match resp
    case R1 => 1
    case R1b => 1
    case R2 => 2
    case R3 => 5
    case R7 => 5
  }

  /** How many bytes a command stores: one of R1 and R1b, two of R2, five of R3 and R7. */
  function ResponseBytes(resp: Resp): nat {
    if resp == R1 || resp == R1b then 1 else if resp == R2 then 2 else 5
  }

  const STOP: nat := 0x6100_0000_004C
  const R1B_TIMEOUT: nat := 10000
  const DATA_TIMEOUT: nat := 10000

  /** Transfers one command may take at most: the frame, a stuff byte, eight polls, busy, release. */
  const CMD_TRANSFERS: nat := R1B_TIMEOUT + 11

  /** What `n` blocks may take: each DATA_TIMEOUT polls for its token, 128 chunks and the check bytes. */
  function BlockBudget(n: nat): nat {
    10129 * n
  }

  const BLOCK_TRANSFERS: nat := BlockBudget(1)

  class Driver {
    const card: Card
    const link: Wire -> int       // return code of the transaction that ends a wire history
    const depth: nat              // SPI_HOST_PARAM_RX_DEPTH, in words
    const crc7: seq<byte> -> byte // the check byte of a command frame
    var wire: Wire
    ghost var transfers: nat

    constructor (card: Card, link: Wire -> int, depth: nat, crc7: seq<byte> -> byte)
      requires depth > 0
      ensures Valid() && this.card == card && this.link == link && this.depth == depth && this.crc7 == crc7
              && wire == []
    {
      this.card, this.link, this.depth, this.crc7 := card, link, depth, crc7;
      wire, transfers := [], 0;
    }

    /** No command frame is under way. */
    ghost predicate Valid()
      reads this
    {
      depth > 0 && !After(wire).Frame?
    }

    /** No transaction fails on the host's side. */
    ghost predicate Reliable() {
      forall w :: link(w) == 0
    }

    method Tx(d: seq<byte>) returns (ret: int)
      requires Valid() && |d| == 6
      modifies this
      ensures Valid() && wire == old(wire) + Sends(d) && transfers == old(transfers) + 1
      ensures Sent(wire) == Sent(old(wire)) + d && After(wire) == Accept(d)
      ensures Reliable() ==> ret == 0
    {
      AfterFrame(wire, d);
      SentAppend(wire, Sends(d));
      SentSends(d);
      wire := wire + Sends(d);
      transfers := transfers + 1;
      ret := link(wire);
    }

    method Rx(buf: array<byte>, from: nat, len: nat) returns (ret: int)
      requires Valid() && from + len <= buf.Length
      modifies this, buf
      ensures Valid() && wire == old(wire) + Receives(Stream(card, old(wire), len)) && transfers == old(transfers) + 1
      ensures Sent(wire) == Sent(old(wire))
      ensures buf[from..from + len] == Stream(card, old(wire), len)
      ensures forall i :: 0 <= i < buf.Length && !(from <= i < from + len) ==> buf[i] == old(buf[i])
      ensures Reliable() ==> ret == 0
    {
      ghost var w := wire;
      StreamStart(card, w);
      hide Stream, Receives, After, React, Sent;
      for i := 0 to len
        invariant Valid() && wire == w + Receives(Stream(card, w, i)) && transfers == old(transfers)
        invariant Sent(wire) == Sent(w)
        invariant buf[from..from + i] == Stream(card, w, i)
        invariant forall j :: 0 <= j < buf.Length && !(from <= j < from + i) ==> buf[j] == old(buf[j])
      {
        StreamNext(card, w, i);
        MisoKeepsFrame(wire, card(wire));
        buf[from + i] := card(wire);
        assert buf[from..from + i + 1] == buf[from..from + i] + [buf[from + i]];
        wire := wire + [Miso(card(wire))];
      }
      transfers := transfers + 1;
      ret := link(wire);
    }

    /** A one-byte receive, the unit of all polling. */
    method RxByte(buf: array<byte>) returns (ret: int)
      requires Valid() && buf.Length > 0
      modifies this, buf
      ensures Valid() && transfers == old(transfers) + 1 && Sent(wire) == Sent(old(wire))
      ensures buf[0] == card(old(wire)) && wire == old(wire) + [Miso(buf[0])]
      ensures After(wire) == React(After(old(wire)), Miso(buf[0]))
      ensures forall i :: 0 < i < buf.Length ==> buf[i] == old(buf[i])
      ensures Reliable() ==> ret == 0
    {
      ghost var w := wire;
      AfterOne(w, Miso(card(w)));
      StreamNext(card, w, 0);
      assert w + Receives([]) == w;
      ret := Rx(buf, 0, 1);
      assert buf[..1] == [buf[0]];
    }

    method CsFree() returns (ret: int)
      requires Valid()
      modifies this
      ensures Valid() && wire == old(wire) + [Event.CsFree] && transfers == old(transfers) + 1
      ensures Sent(wire) == Sent(old(wire)) && After(wire) == After(old(wire))
      ensures Reliable() ==> ret == 0
    {
      AfterOne(wire, Event.CsFree);
      wire := wire + [Event.CsFree];
      transfers := transfers + 1;
      ret := link(wire);
    }

    /** What a phase that waits becomes after `n` more bytes that say "not yet". */
    static function Waited(p: Phase, n: nat): Phase {
      match p
      case Answer(k, m, i) => Answer(k, m, i + n)
      case Ready(k, m, i) => Ready(k, m, i + n)
      case StopAnswer(i) => StopAnswer(i + n)
      case StopBusy(i) => StopBusy(i + n)
      case _ => p
    }

    /** Poll for a response with its top bit low, at most eight times. */
    method PollAnswer(rdata: array<byte>, ghost blocks: Packets) returns (ret: int)
      requires Valid() && rdata.Length > 0
      modifies this, rdata
      ensures Valid() && old(transfers) < transfers <= old(transfers) + 8 && Sent(wire) == Sent(old(wire))
      ensures Reliable() ==> ret == if transfers == old(transfers) + 8 then 0x12 else 0
      ensures ret == 0 ==> rdata[0] < 0x80 && Received(wire, rdata[..1])
      ensures forall i :: 1 <= i < rdata.Length ==> rdata[i] == old(rdata[i])
      ensures var p := After(old(wire));
              && (p.Answer? && ret == 0 ==> After(wire) == Ready(p.block, p.multi, 0) || After(wire) == Refused)
              && (p.StopAnswer? && ret == 0 ==> After(wire) == StopBusy(0))
      ensures var p := After(old(wire));
              Reliable() && Prompt(card, blocks) ==>
                && (p.Answer? && p.wait == 0 && p.block < |blocks| ==> ret == 0 && After(wire).Ready?)
                && (p == StopAnswer(0) ==> ret == 0)
    {
      ghost var p := After(wire);
      var timeout := 8;
      while true
        invariant Valid() && 0 < timeout <= 8
                  && transfers == old(transfers) + 8 - timeout && Sent(wire) == Sent(old(wire))
        invariant forall i :: 1 <= i < rdata.Length ==> rdata[i] == old(rdata[i])
        invariant p.Answer? || p.StopAnswer? ==> After(wire) == Waited(p, 8 - timeout)
        invariant Reliable() && Prompt(card, blocks) ==>
            (p.Answer? && p.wait == 0 && p.block < |blocks|) || p == StopAnswer(0) ==> timeout >= 2
        decreases timeout
      {
        ghost var w := wire;
        ret := RxByte(rdata);
        assert Prompt(card, blocks) ==> InTime(blocks, After(w), card(w));
        if ret != 0 { return; }
        timeout := timeout - 1;
        if !(timeout != 0 && rdata[0] >= 0x80) { break; }
      }
      assert rdata[..1] == [rdata[0]];
      if timeout == 0 { ret := 0x12; }
    }

    /** Poll until the card has stopped signalling busy. */
    method PollBusy(ghost blocks: Packets) returns (ret: int)
      requires Valid()
      modifies this
      ensures Valid() && transfers <= old(transfers) + R1B_TIMEOUT && Sent(wire) == Sent(old(wire))
      ensures Reliable() ==> ret == if transfers == old(transfers) + R1B_TIMEOUT then 0x13 else 0
      ensures After(old(wire)).StopBusy? && ret == 0 ==> After(wire) == Idle
      ensures Reliable() && Prompt(card, blocks) && After(old(wire)) == StopBusy(0) ==> ret == 0
    {
      ghost var p := After(wire);
      var rdummy := new byte[1];
      var timeout := R1B_TIMEOUT;
      while true
        invariant Valid() && 0 < timeout <= R1B_TIMEOUT
        invariant transfers == old(transfers) + R1B_TIMEOUT - timeout && Sent(wire) == Sent(old(wire))
        invariant p.StopBusy? ==> After(wire) == Waited(p, R1B_TIMEOUT - timeout)
        invariant Prompt(card, blocks) && p == StopBusy(0) ==> timeout >= 2
        invariant fresh(rdummy)
        decreases timeout
      {
        ghost var w := wire;
        ret := RxByte(rdummy);
        assert Prompt(card, blocks) ==> InTime(blocks, After(w), card(w));
        if ret != 0 { return; }
        timeout := timeout - 1;
        if !(timeout != 0 && rdummy[0] == 0) { break; }
      }
      if timeout == 0 { ret := 0x13; }
    }

    /** Poll for the start of a data block. */
    method PollToken(ghost blocks: Packets) returns (ret: int)
      requires Valid()
      modifies this
      ensures Valid() && transfers <= old(transfers) + DATA_TIMEOUT && Sent(wire) == Sent(old(wire))
      ensures Reliable() ==> wire != [] && wire[|wire| - 1].Miso?
                             && ret == if transfers == old(transfers) + DATA_TIMEOUT then 0x19
                                       else if wire[|wire| - 1].b == 0xFE then 0 else 0x20
      ensures var p := After(old(wire));
              && (p.Ready? && ret == 0 ==> After(wire) == Data(p.block, p.multi, 0))
              && (p.Ready? && ret == 0 && Serves(card, blocks) ==> p.block < |blocks|)
              && (p == Refused && ret == 0 ==> After(wire) == Refused)
              && (p == Refused && Serves(card, blocks) ==> ret != 0)
              && (Reliable() && Prompt(card, blocks) && p.Ready? && p.wait == 0 && p.block < |blocks| ==> ret == 0)
    {
      ghost var p := After(wire);
      var rxdummy := new byte[1];
      var timeout := DATA_TIMEOUT;
      ghost var w := wire;
      while true
        invariant Valid() && 0 < timeout <= DATA_TIMEOUT
        invariant transfers == old(transfers) + DATA_TIMEOUT - timeout && Sent(wire) == Sent(old(wire))
        invariant p.Ready? || p == Refused ==> After(wire) == Waited(p, DATA_TIMEOUT - timeout)
        invariant Prompt(card, blocks) && p.Ready? && p.wait == 0 && p.block < |blocks| ==> timeout >= 2
        invariant fresh(rxdummy)
        decreases timeout
      {
        w := wire;
        ret := RxByte(rxdummy);
        assert Prompt(card, blocks) ==> InTime(blocks, After(w), card(w));
        assert Serves(card, blocks) ==> Allowed(blocks, After(w), card(w));
        if ret != 0 { return; }
        timeout := timeout - 1;
        if !(timeout != 0 && rxdummy[0] == 0xFF) { break; }
      }
      if timeout == 0 { ret := 0x19; return; }
      if rxdummy[0] != 0xFE { ret := 0x20; }
    }

    /** `__spi_sdcard_cmd`: send a command, await its response, release the card if asked to. */
    method Cmd(cmd: nat, resp: Resp, rdata: array<byte>, csaat: bool, ghost blocks: Packets) returns (ret: int)
      requires Valid() && RespLen(resp) <= rdata.Length
      modifies this, rdata
      ensures Valid() && transfers <= old(transfers) + CMD_TRANSFERS
      ensures Sent(wire) == Sent(old(wire)) + LeBytes(cmd, 6)
      ensures ret == 0 && !csaat ==> Released(wire)
      ensures ret == 0 ==> rdata[0] < 0x80
      ensures ret == 0 && resp != R1b ==> Answered(wire, rdata[..ResponseBytes(resp)], csaat)
      ensures forall i :: ResponseBytes(resp) <= i < rdata.Length ==> rdata[i] == old(rdata[i])
      ensures var f := LeBytes(cmd, 6);
              && (Accept(f).Answer? && resp == R1 && ret == 0 ==>
                    After(wire) == Ready(Accept(f).block, Accept(f).multi, 0) || After(wire) == Refused)
              && (Accept(f) == Stuff && resp == R1b && ret == 0 ==> After(wire) == Idle)
      ensures var f := LeBytes(cmd, 6);
              Reliable() && Prompt(card, blocks) ==>
                && (Accept(f).Answer? && resp == R1 && Accept(f).block < |blocks| ==> ret == 0 && After(wire).Ready?)
                && (Accept(f) == Stuff && resp == R1b ==> ret == 0)
    {
      hide Serves, Prompt, React, Reliable, After, Sent, Received;
      ghost var f := LeBytes(cmd, 6);
      CommandByte(cmd);
      ret := Tx(LeBytes(cmd, 6));
      if ret != 0 { return; }
      if cmd % 256 == 0x4C {
        var rdummy := new byte[1];
        ret := RxByte(rdummy);
        assert Accept(f) == Stuff ==> After(wire) == StopAnswer(0) by { StuffByte(rdummy[0]); }
        if ret != 0 { return; }
      }
      ret := Response(resp, rdata, blocks);
      if ret != 0 { return; }
      if !csaat {
        ghost var w := wire;
        ret := CsFree();
        assert wire[..|wire| - 1] == w;
      }
    }

    /** The response of `__spi_sdcard_cmd`: polled for, and read to its end or until the card is not busy. */
    method Response(resp: Resp, rdata: array<byte>, ghost blocks: Packets) returns (ret: int)
      requires Valid() && RespLen(resp) <= rdata.Length
      modifies this, rdata
      ensures Valid() && transfers <= old(transfers) + R1B_TIMEOUT + 8 && Sent(wire) == Sent(old(wire))
      ensures ret == 0 ==> rdata[0] < 0x80
      ensures ret == 0 && resp != R1b ==> Received(wire, rdata[..ResponseBytes(resp)])
      ensures forall i :: ResponseBytes(resp) <= i < rdata.Length ==> rdata[i] == old(rdata[i])
      ensures var p := After(old(wire));
              && (p.Answer? && resp == R1 && ret == 0 ==>
                    After(wire) == Ready(p.block, p.multi, 0) || After(wire) == Refused)
              && (p.StopAnswer? && resp == R1b && ret == 0 ==> After(wire) == Idle)
      ensures var p := After(old(wire));
              Reliable() && Prompt(card, blocks) ==>
                && (p.Answer? && p.wait == 0 && resp == R1 && p.block < |blocks| ==> ret == 0 && After(wire).Ready?)
                && (p == StopAnswer(0) && resp == R1b ==> ret == 0)
    {
      hide Serves, Prompt, React, Reliable, After, Sent, Received;
      ret := PollAnswer(rdata, blocks);
      if ret != 0 { return; }
      if resp == R1b {
        ret := PollBusy(blocks);
      } else if RespLen(resp) > 1 {
        ghost var first, w := rdata[..1], wire;
        ret := Rx(rdata, 1, RespLen(resp) - 1);
        ReceivedMore(w, first, Stream(card, w, RespLen(resp) - 1));
        assert rdata[..RespLen(resp)] == first + rdata[1..1 + (RespLen(resp) - 1)];
      }
    }

    /** The phases before and after a block came through. */
    static predicate BlockPhases(p: Phase, q: Phase) {
      && (p == Refused ==> q == Refused)
      && (p.Ready? ==> q == AfterBlock(p.block, p.multi))
    }

    /** What the return code of a block fetch from a serving card says. */
    ghost predicate BlockOutcome(p: Phase, ret: int, check: bool, blocks: Packets)
      reads this
      requires Sized(blocks)
    {
      && (p == Refused ==> ret != 0)
      && (p.Ready? && ret == 0 ==> p.block < |blocks| && (check ==> Crc16.Intact(blocks[p.block])))
      && (p.Ready? && p.wait == 0 && p.block < |blocks| && Reliable() && Prompt(card, blocks) ==>
            ret == if check && !Crc16.Intact(blocks[p.block]) then 0x21 else 0)
    }

    /** One block: token, 512 bytes in chunks of at most the FIFO size, check bytes. */
    method FetchBlock(buf: array<byte>, from: nat, check: bool, ghost blocks: Packets) returns (ret: int)
      requires Valid() && from + 512 <= buf.Length
      modifies this, buf
      ensures Valid() && transfers <= old(transfers) + BLOCK_TRANSFERS && Sent(wire) == Sent(old(wire))
      ensures forall i :: 0 <= i < buf.Length && !(from <= i < from + 512) ==> buf[i] == old(buf[i])
      ensures ret == 0 ==> BlockPhases(After(old(wire)), After(wire))
      ensures Serves(card, blocks) ==> BlockOutcome(After(old(wire)), ret, check, blocks)
      ensures var p := After(old(wire));
              Serves(card, blocks) && p.Ready? && ret == 0 ==>
                p.block < |blocks| && buf[from..from + 512] == blocks[p.block][..512]
    {
      hide Prompt, React, Reliable, After, Sent, Crc16.CrcValue;
      ghost var p := After(wire);
      ret := PollToken(blocks);
      if ret != 0 { return; }
      ghost var w := wire;
      ret := FetchData(buf, from);
      if ret != 0 { return; }
      ghost var v := wire;
      var crc := new byte[2];
      ret := Rx(crc, 0, 2);
      PacketPhases(card, w, p);
      assert crc[..] == Stream(card, v, 2);
      if Serves(card, blocks) && p.Ready? {
        PacketContents(card, blocks, w, p);
      }
      if ret != 0 { return; }
      if check {
        var c := Crc16.Crc16(buf, from, 512);
        CheckMeans(buf[from..from + 512], crc[0], crc[1]);
        if (crc[0] as nat) + 256 * (crc[1] as nat) != c {
          ret := 0x21;
        }
      }
    }

    method FetchData(buf: array<byte>, from: nat) returns (ret: int)
      requires Valid() && from + 512 <= buf.Length
      modifies this, buf
      ensures Valid() && transfers <= old(transfers) + 128 && Sent(wire) == Sent(old(wire))
      ensures forall i :: 0 <= i < buf.Length && !(from <= i < from + 512) ==> buf[i] == old(buf[i])
      ensures ret == 0 ==>
                && wire == old(wire) + Receives(Stream(card, old(wire), 512))
                && buf[from..from + 512] == Stream(card, old(wire), 512)
      ensures Reliable() ==> ret == 0
    {
      hide Reliable, After, Sent, React;
      ghost var w := wire;
      StreamStart(card, w);
      hide Stream, Receives;
      ret := 0;
      var offs := 0;
      ghost var n := 0;
      while offs < 512
        invariant Valid() && 4 * n <= offs && n <= 128 && transfers == old(transfers) + n && Sent(wire) == Sent(w)
        invariant var done := if offs < 512 then offs else 512;
                  wire == w + Receives(Stream(card, w, done)) && buf[from..from + done] == Stream(card, w, done)
        invariant forall i :: 0 <= i < buf.Length && !(from <= i < from + 512) ==> buf[i] == old(buf[i])
        invariant Reliable() ==> ret == 0
      {
        var chunk := if 4 * depth <= 512 - offs then 4 * depth else 512 - offs;
        StreamAppend(card, w, offs, chunk);
        ghost var before := buf[from..from + offs];
        ret := Rx(buf, from + offs, chunk);
        n := n + 1;
        if ret != 0 { return; }
        assert buf[from..from + offs] == before;
        SliceJoin(buf[..], from, offs, chunk);
        offs := offs + 4 * depth;
      }
    }

    /** `__spi_sdcard_build_cmd`: opcode, big-endian 32-bit argument and check byte in one word. */
    function BuildCmd(op: byte, arg: nat): nat {
      var cmd := (op as nat)
                 + arg / 0x100_0000 % 256 * 0x100
                 + arg / 0x1_0000 % 256 * 0x1_0000
                 + arg / 0x100 % 256 * 0x100_0000
                 + arg % 256 * 0x1_0000_0000;
      (crc7(LeBytes(cmd, 5)) as nat) * 0x100_0000_0000 + cmd
    }

    /** On the wire the frame starts with the opcode and ends with the check byte of what comes before it,
        and the card decodes the low 32 bits of the argument. */
    lemma FrameOfCmd(op: byte, arg: nat)
      ensures LeBytes(BuildCmd(op, arg), 6)[0] == op
      ensures LeBytes(BuildCmd(op, arg), 6)[5] == crc7(LeBytes(BuildCmd(op, arg), 6)[..5])
      ensures Argument(LeBytes(BuildCmd(op, arg), 6)) == arg % 0x1_0000_0000
    {
      hide BuildCmd;
      var a3, a2, a1, a0 := arg / 0x100_0000 % 256, arg / 0x1_0000 % 256, arg / 0x100 % 256, arg % 256;
      var c := CmdSum(op, arg, a3, a2, a1, a0);
      hide LeBytes, BuildCmd;
      LeFive(op, a3, a2, a1, a0);
      LeSix(op, a3, a2, a1, a0, c);
      assert LeBytes(BuildCmd(op, arg), 6)[..5] == [op, a3, a2, a1, a0];
      ArgumentDigits(arg);
    }

    lemma CmdSum(op: byte, arg: nat, a3: byte, a2: byte, a1: byte, a0: byte) returns (c: byte)
      requires a3 == arg / 0x100_0000 % 256 && a2 == arg / 0x1_0000 % 256 && a1 == arg / 0x100 % 256 && a0 == arg % 256
      ensures BuildCmd(op, arg) == Six(op, a3, a2, a1, a0, c) && c == crc7(LeBytes(Six(op, a3, a2, a1, a0, 0), 5))
    {
      hide LeBytes;
      var cmd := (op as nat) + 0x100 * (a3 as nat) + 0x1_0000 * (a2 as nat) + 0x100_0000 * (a1 as nat)
                 + 0x1_0000_0000 * (a0 as nat);
      c := crc7(LeBytes(cmd, 5));
    }

    static method MemCopy(dst: array<byte>, at: nat, src: array<byte>, from: nat, n: nat)
      requires dst != src && at + n <= dst.Length && from + n <= src.Length
      modifies dst
      ensures dst[at..at + n] == src[from..from + n]
      ensures forall i :: 0 <= i < dst.Length && !(at <= i < at + n) ==> dst[i] == old(dst[i])
    {
      for i := 0 to n
        invariant dst[at..at + i] == src[from..from + i]
        invariant forall j :: 0 <= j < dst.Length && !(at <= j < at + i) ==> dst[j] == old(dst[j])
      {
        dst[at + i] := src[from + i];
        assert dst[at..at + i + 1] == dst[at..at + i] + [src[from + i]];
      }
    }

    /** Loop body of `__spi_sdcard_read_blocks`: block `b` goes to bytes lo to hi of the target. */
    method TakeBlock(dst: array<byte>, at: nat, swap: array<byte>, b: nat, s: Span, check: bool, ghost blocks: Packets)
      returns (ret: int)
      requires Valid() && s.Valid() && b < s.blocks && at + s.Bytes() <= dst.Length
      requires swap != dst && swap.Length == 512
      modifies this, dst, swap
      ensures Valid() && transfers <= old(transfers) + BLOCK_TRANSFERS && Sent(wire) == Sent(old(wire))
      ensures forall i :: 0 <= i < dst.Length && !(at + s.Lo(b) <= i < at + s.Hi(b)) ==> dst[i] == old(dst[i])
      ensures ret == 0 ==> BlockPhases(After(old(wire)), After(wire))
      ensures Serves(card, blocks) ==> BlockOutcome(After(old(wire)), ret, check, blocks)
      ensures var p := After(old(wire));
              Serves(card, blocks) && p.Ready? && ret == 0 ==>
                p.block < |blocks| && dst[at + s.Lo(b)..at + s.Hi(b)] == blocks[p.block][s.From(b)..s.To(b)]
    {
      hide Prompt, React, Reliable, After, Sent, Crc16.Intact, BlockOutcome, BlockPhases, Allowed;
      ghost var p := After(wire);
      var firstBlock := b == 0 && s.first != 0;
      var lastBlock := b == s.blocks - 1 && s.last != 512;
      if firstBlock || lastBlock {
        ret := FetchBlock(swap, 0, check, blocks);
        if ret != 0 { return; }
        if firstBlock && lastBlock {
          assert s.Lo(b) == 0 && s.Hi(b) == s.last - s.first;
          MemCopy(dst, at, swap, s.first, s.last - s.first);
        } else if firstBlock {
          assert s.Lo(b) == 0 && s.Hi(b) == 512 - s.first;
          MemCopy(dst, at, swap, s.first, 512 - s.first);
        } else {
          assert s.Lo(b) == 512 * b - s.first && s.Hi(b) == s.Lo(b) + s.last;
          MemCopy(dst, at + 512 * b - s.first, swap, 0, s.last);
        }
        assert dst[at + s.Lo(b)..at + s.Hi(b)] == swap[s.From(b)..s.To(b)];
        if Serves(card, blocks) && p.Ready? {
          SliceOfSlice(swap[..], blocks[p.block], s.From(b), s.To(b));
        }
      } else {
        assert s.Lo(b) == 512 * b - s.first && s.Hi(b) == s.Lo(b) + 512;
        ret := FetchBlock(dst, at + 512 * b - s.first, check, blocks);
        assert s.From(b) == 0 && s.To(b) == 512;
      }
    }

    /** The command on the wire for reading `n` blocks from `block`. */
    function ReadFrame(block: nat, n: nat): seq<byte> {
      LeBytes(BuildCmd(if n > 1 then 0x52 else 0x51, block), 6)
    }

    /** `__spi_sdcard_read_blocks`: aligned blocks, the first and last one possibly in part. */
    method ReadBlocks(dst: array<byte>, at: nat, block: nat, s: Span, swap: array<byte>, check: bool,
                      ghost blocks: Packets)
      returns (ret: int)
      requires Valid() && (s.blocks > 0 ==> s.Valid() && at + s.Bytes() <= dst.Length)
      requires swap != dst && swap.Length == 512
      modifies this, dst, swap
      ensures Valid()
      ensures s.blocks == 0 ==> ret == 0 && wire == old(wire) && transfers == old(transfers) && dst[..] == old(dst[..])
      // any card at all
      ensures s.blocks > 0 ==>
                && transfers <= old(transfers) + 2 * CMD_TRANSFERS + BlockBudget(s.blocks)
                && (forall i :: 0 <= i < dst.Length && !(at <= i < at + s.Bytes()) ==> dst[i] == old(dst[i]))
                && (ret == 0 ==>
                      && Sent(wire) == Sent(old(wire)) + ReadFrame(block, s.blocks)
                                       + (if s.blocks > 1 then LeBytes(STOP, 6) else [])
                      && Released(wire) && !Streaming(After(wire)))
      // a card that serves `blocks`
      ensures s.blocks > 0 && Serves(card, blocks) ==>
                && (ret == 0 ==>
                      && block % 0x1_0000_0000 + s.blocks <= |blocks|
                      && dst[at..at + s.Bytes()] == Contents(blocks, 512 * (block % 0x1_0000_0000) + s.first, s.Bytes())
                      && (check ==> AllIntact(blocks, block % 0x1_0000_0000, s.blocks)))
                && (Reliable() && Prompt(card, blocks) && block % 0x1_0000_0000 + s.blocks <= |blocks| ==>
                      ret == if check && !AllIntact(blocks, block % 0x1_0000_0000, s.blocks) then 0x21 else 0)
    {
      hide Prompt, React, Reliable, After, Sent, AllIntact, Allowed, BuildCmd, LeBytes, Accept;
      if s.blocks == 0 { return 0; }
      var rxdummy := new byte[1];
      FrameOfCmd(if s.blocks > 1 then 0x52 else 0x51, block);
      AcceptsRead(ReadFrame(block, s.blocks), s.blocks > 1, block % 0x1_0000_0000);
      ret := Cmd(BuildCmd(if s.blocks > 1 then 0x52 else 0x51, block), R1, rxdummy, true, blocks);
      if ret != 0 { return; }
      ret := TakeBlocks(dst, at, block % 0x1_0000_0000, s, swap, check, blocks);
      if ret != 0 { return; }
      if s.blocks > 1 {
        var buf := new byte[8];
        AcceptsStop();
        ret := Cmd(STOP, R1b, buf, false, blocks);
      } else {
        ret := CsFree();
      }
    }

    /** The block loop of `__spi_sdcard_read_blocks`, after the command has been answered. */
    method TakeBlocks(dst: array<byte>, at: nat, ghost k0: nat, s: Span, swap: array<byte>, check: bool,
                      ghost blocks: Packets)
      returns (ret: int)
      requires Valid() && s.Valid() && at + s.Bytes() <= dst.Length && swap != dst && swap.Length == 512
      requires After(wire) == Ready(k0, s.blocks > 1, 0) || After(wire) == Refused
      modifies this, dst, swap
      ensures Valid() && transfers <= old(transfers) + BlockBudget(s.blocks) && Sent(wire) == Sent(old(wire))
      ensures forall i :: 0 <= i < dst.Length && !(at <= i < at + s.Bytes()) ==> dst[i] == old(dst[i])
      ensures ret == 0 ==> After(wire) == Refused || After(wire) == Expected(k0, s.blocks > 1, s.blocks)
      ensures Serves(card, blocks) && ret == 0 ==>
                && k0 + s.blocks <= |blocks|
                && dst[at..at + s.Bytes()] == Contents(blocks, 512 * k0 + s.first, s.Bytes())
                && (check ==> AllIntact(blocks, k0, s.blocks))
      ensures Serves(card, blocks) && Reliable() && Prompt(card, blocks) && After(old(wire)).Ready?
              && k0 + s.blocks <= |blocks| ==>
                ret == if check && !AllIntact(blocks, k0, s.blocks) then 0x21 else 0
    {
      hide Serves, Prompt, React, Reliable, After, Sent, AllIntact, Allowed, Crc16.Intact, BlockOutcome;
      hide Progress, Contents;
      ret := 0;
      ProgressStart(blocks, k0, s, dst[at..at], check);
      if Serves(card, blocks) {
        ServesSized(card, blocks);
      }
      for b := 0 to s.blocks
        invariant Valid() && ret == 0 && transfers <= old(transfers) + BlockBudget(b) && Sent(wire) == Sent(old(wire))
        invariant After(wire) == Refused || After(wire) == Expected(k0, s.blocks > 1, b)
        invariant b == 0 ==> wire == old(wire)
        invariant forall i :: 0 <= i < dst.Length && !(at <= i < at + s.Bytes()) ==> dst[i] == old(dst[i])
        invariant Serves(card, blocks) ==> Progress(blocks, k0, s, b, dst[at..at + s.Got(b)], check)
        invariant Serves(card, blocks) && b > 0 ==> After(wire) != Refused
      {
        ghost var p, d0 := After(wire), dst[..];
        ret := TakeBlock(dst, at, swap, b, s, check, blocks);
        if Serves(card, blocks) {
          OutcomeInLoop(p, ret, check, blocks, k0, s, b);
        }
        if ret != 0 { return; }
        if Serves(card, blocks) {
          Advance(p, check, blocks, k0, s, b, at, d0, dst[..]);
        }
      }
      if Serves(card, blocks) {
        ProgressEnd(blocks, k0, s, dst[at..at + s.Bytes()], check);
      }
    }

    lemma OutcomeInLoop(p: Phase, ret: int, check: bool, blocks: Packets, k0: nat, s: Span, b: nat)
      requires Serves(card, blocks) && BlockOutcome(p, ret, check, blocks) && b < s.blocks
      requires p == Refused || (p.Ready? && p.block == k0 + b && p.wait == 0)
      ensures ret == 0 ==> p != Refused && k0 + b < |blocks| && (check ==> Crc16.Intact(blocks[k0 + b]))
      ensures ret != 0 && p != Refused && Reliable() && Prompt(card, blocks) && k0 + s.blocks <= |blocks| ==>
                ret == 0x21 && check && !AllIntact(blocks, k0, s.blocks)
    {}

    /** `__spi_sdcard_read`: any byte address and length. The block number a command carries has 32
        bits, so the card is read at `addr` modulo its largest capacity. A request whose block count
        wraps around is reported as done without a transfer. */
    method Read(dst: array<byte>, at: nat, addr: nat, len: nat, check: bool, ghost blocks: Packets) returns (ret: int)
      requires Valid() && addr < TWO_64 && len < TWO_64 && addr % 512 + len <= TWO_64 && at + len <= dst.Length
      modifies this, dst
      ensures Valid() && Untouched(old(dst[..]), dst[..], at, len)
      ensures !Transfers(addr, len) ==> ret == 0 && wire == old(wire)
      ensures transfers <= old(transfers) + 2 * CMD_TRANSFERS + BlockBudget(BlocksOf(addr, len))
      ensures Transfers(addr, len) && ret == 0 ==>
                && Sent(wire) == Sent(old(wire)) + ReadFrame(addr / 512, BlocksOf(addr, len))
                                 + (if BlocksOf(addr, len) > 1 then LeBytes(STOP, 6) else [])
                && Released(wire) && !Streaming(After(wire))
      ensures Transfers(addr, len) && ret == 0 && Serves(card, blocks) ==>
                && Delivered(blocks, CardAddress(addr), len, dst[at..at + len])
                && (check ==> RangeIntact(blocks, CardAddress(addr), len))
      ensures Transfers(addr, len) && Serves(card, blocks) && Reliable() && Prompt(card, blocks)
              && CardAddress(addr) + len <= 512 * |blocks| ==>
                ret == if check && !RangeIntact(blocks, CardAddress(addr), len) then 0x21 else 0
    {
      hide Serves, Prompt, React, Reliable, After, Sent, AllIntact, RangeIntact, Delivered, Contents, Sized;
      hide Crc16.Intact, CardAddress, BlocksOf, Split, LeBytes, ReadFrame, Streaming, Released;
      var swap := new byte[512];
      if len == 0 { return 0; }
      if !Transfers(addr, len) {
        WrappedCount(addr, len);
      } else {
        SpanFits(addr, len);
      }
      ret := ReadBlocks(dst, at, addr / 512, Split(addr, len), swap, check, blocks);
      if Serves(card, blocks) && Transfers(addr, len) {
        ServesSized(card, blocks);
        RangeOfBlocks(blocks, addr, len, dst[at..at + len]);
      }
    }

    /** `spi_sdcard_read_checkcrc` on a card whose packets are those of `disk`, some of them damaged
        by bursts of up to sixteen bits: what is delivered is the disk's, and damage is always caught. */
    method ReadCheckCrc(dst: array<byte>, at: nat, addr: nat, len: nat, ghost blocks: Packets, ghost disk: seq<byte>)
      returns (ret: int)
      requires Valid() && addr < TWO_64 && len < TWO_64 && addr % 512 + len <= TWO_64 && at + len <= dst.Length
      requires |disk| % 512 == 0
      modifies this, dst
      ensures Valid() && Untouched(old(dst[..]), dst[..], at, len)
      ensures !Transfers(addr, len) ==> ret == 0 && wire == old(wire)
      ensures Transfers(addr, len) && ret == 0 ==> Released(wire) && !Streaming(After(wire))
      ensures Serves(card, blocks) && Transfers(addr, len) && Degraded(blocks, disk) ==>
                && (ret == 0 ==>
                      && CardAddress(addr) + len <= |disk|
                      && dst[at..at + len] == disk[CardAddress(addr)..CardAddress(addr) + len]
                      && Unharmed(blocks, disk, CardAddress(addr), len))
                && (Reliable() && Prompt(card, blocks) && CardAddress(addr) + len <= |disk| ==>
                      ret == if Unharmed(blocks, disk, CardAddress(addr), len) then 0 else 0x21)
      ensures Serves(card, blocks) && Transfers(addr, len) && HitsDamage(blocks, CardAddress(addr), len) ==>
                && ret != 0
                && (Reliable() && Prompt(card, blocks) && CardAddress(addr) + len <= 512 * |blocks| ==> ret == 0x21)
    {
      hide Serves, Prompt, React, Reliable, After, Sent, AllIntact, RangeIntact, Delivered, Contents, HitsDamage;
      hide Crc16.Intact, PacketsOf, Sized, CardAddress, BlocksOf, Degraded, Unharmed;
      if Serves(card, blocks) {
        ServesSized(card, blocks);
        DamageShows(blocks, CardAddress(addr), len);
        if Degraded(blocks, disk) {
          DegradedRange(blocks, disk, CardAddress(addr), len);
        }
      }
      ret := Read(dst, at, addr, len, true, blocks);
      if Serves(card, blocks) && ret == 0 && Transfers(addr, len) && Degraded(blocks, disk) {
        DiskDelivered(blocks, disk, CardAddress(addr), len, dst[at..at + len]);
      }
    }
  }

  /** A card of one sector has no byte 2^41, and yet a read there succeeds with the contents of its
      first sector. */
  method WrappedRead(d: Driver, dst: array<byte>, ghost disk: seq<byte>) returns (ret: int)
    requires d.Valid() && |disk| == 512 && Serves(d.card, PacketsOf(disk))
    requires d.Reliable() && Prompt(d.card, PacketsOf(disk)) && dst.Length == 512
    modifies d, dst
    ensures ret == 0 && dst[..] == disk
  {
    hide Serves, Prompt, PacketsOf, Degraded;
    PlainIsDegraded(disk);
    assert CardAddress(CAPACITY) == 0;
    ret := d.ReadCheckCrc(dst, 0, CAPACITY, 512, PacketsOf(disk), disk);
    assert dst[0..0 + 512] == dst[..] && disk[0..0 + 512] == disk;
  }

  /** A card on which the driver finds `len` bytes from `a` on. */
  predicate HasBytes(disk: seq<byte>, a: nat, len: nat) {
    |disk| % 512 == 0 && a + len <= |disk| <= CAPACITY
  }

  /** What the driver then delivers is what it was asked for. */
  predicate RightBytes(disk: seq<byte>, addr: nat, len: nat)
    requires HasBytes(disk, CardAddress(addr), len)
  {
    addr + len <= |disk| && disk[CardAddress(addr)..CardAddress(addr) + len] == disk[addr..addr + len]
  }

  /** On every card that has the bytes it is asked for, these are the ones the caller means, exactly if
      the request ends within the largest capacity. */
  lemma WrapsExactly(addr: nat, len: nat)
    requires 0 < len && CardAddress(addr) + len <= CAPACITY
    ensures (forall disk :: HasBytes(disk, CardAddress(addr), len) ==> RightBytes(disk, addr, len))
            <==> addr + len <= CAPACITY
  {
    if addr + len <= CAPACITY {
      BlockAddress(addr);
      assert CardAddress(addr) == addr;
    } else {
      var disk := ZeroBytes(CAPACITY);
      assert HasBytes(disk, CardAddress(addr), len) && !RightBytes(disk, addr, len);
    }
  }

  /** What 2^32 blocks of 512 bytes hold. */
  const CAPACITY: nat := 0x200_0000_0000

  /** How many blocks a byte range touches. */
  function BlocksOf(addr: nat, len: nat): nat {
    (addr % 512 + len + 511) / 512
  }

  /** The request is not empty, and its block count does not wrap around. */
  predicate Transfers(addr: nat, len: nat) {
    0 < len && addr % 512 + len + 511 < TWO_64
  }

  lemma WrappedCount(addr: nat, len: nat)
    requires addr % 512 + len <= TWO_64 <= addr % 512 + len + 511
    ensures Split(addr, len).blocks == 0
  {}

  /** Beyond 2^64 bytes the rounded length wraps around to a single block, of which the source would
      copy from the first offset to a last one before it: a negative number of bytes. */
  lemma NegativeCopy(addr: nat, len: nat)
    requires addr < TWO_64 && len < TWO_64 < addr % 512 + len
    ensures Split(addr, len).blocks == 1 && Split(addr, len).last < Split(addr, len).first
    ensures Split(addr, len).first - Split(addr, len).last == TWO_64 - len
  {
    var x := addr % 512 + len - TWO_64;
    assert U64(len + addr % 512 + 511) == x + 511;
    LastOffset(addr, len);
    assert (x + TWO_64) % 512 == x;
  }

  predicate Untouched(before: seq<byte>, now: seq<byte>, at: nat, len: nat) {
    |before| == |now| && forall i :: 0 <= i < |now| && !(at <= i < at + len) ==> now[i] == before[i]
  }

  /** The block count, offset and length of `__spi_sdcard_read`, in 64-bit arithmetic. */
  function Split(addr: nat, len: nat): Span {
    var firstOffs := addr % 512;
    var pteOffs := U64(addr + len) % 512;
    var lastLen := if pteOffs == 0 then 512 else pteOffs;
    var lenBlocks := U64(len + firstOffs + 511) / 512;
    Span(lenBlocks, firstOffs, lastLen)
  }

  /** The driver's 64-bit arithmetic splits a request into the blocks it touches. */
  lemma SpanFits(addr: nat, len: nat)
    requires Transfers(addr, len)
    ensures Split(addr, len).blocks == BlocksOf(addr, len) && Split(addr, len).first == addr % 512
    ensures Split(addr, len).Valid() && Split(addr, len).Bytes() == len
  {
    LastOffset(addr, len);
    SpanBytes(addr % 512, len);
  }

  lemma SpanBytes(first: nat, len: nat)
    requires first < 512 && 0 < len
    ensures var pte := (first + len) % 512;
            var s := Span((len + first + 511) / 512, first, if pte == 0 then 512 else pte);
            s.Valid() && s.Bytes() == len
  {
    var q, pte := (first + len) / 512, (first + len) % 512;
    assert first + len == 512 * q + pte;
    if pte == 0 {
      assert (len + first + 511) / 512 == q;
    } else {
      assert (len + first + 511) / 512 == q + 1;
    }
  }

  lemma LastOffset(addr: nat, len: nat)
    ensures U64(addr + len) % 512 == (addr % 512 + len) % 512
  {
    var x := addr + len;
    var q := x / 0x1_0000_0000_0000_0000;
    assert x == U64(x) + 512 * (q * 0x80_0000_0000_0000);
    ModSplit(U64(x), q * 0x80_0000_0000_0000);
    assert x == addr % 512 + len + 512 * (addr / 512);
    ModSplit(addr % 512 + len, addr / 512);
  }

  lemma ModSplit(x: nat, k: nat)
    ensures (x + 512 * k) % 512 == x % 512
  {}

  /** Where the card is read: a command carries only 32 bits of the block number. */
  function CardAddress(addr: nat): nat {
    addr % CAPACITY
  }

  lemma BlockAddress(addr: nat)
    ensures CardAddress(addr) == 512 * (addr / 512 % 0x1_0000_0000) + addr % 512
    ensures CardAddress(addr) / 512 == addr / 512 % 0x1_0000_0000 && CardAddress(addr) % 512 == addr % 512
  {
    var b := addr / 512;
    var q, r := b / 0x1_0000_0000, b % 0x1_0000_0000;
    assert addr == CAPACITY * q + (512 * r + addr % 512);
    assert 0 <= 512 * r + addr % 512 < CAPACITY;
  }

  /** `got` is what the card holds at `a`. */
  ghost predicate Delivered(blocks: Packets, a: nat, len: nat, got: seq<byte>)
    requires Sized(blocks)
  {
    a + len <= 512 * |blocks| && got == Contents(blocks, a, len)
  }

  /** Every packet touched by the range carries the right check bytes. */
  ghost predicate RangeIntact(blocks: Packets, a: nat, len: nat)
    requires Sized(blocks)
  {
    forall k :: a / 512 <= k < a / 512 + BlocksOf(a, len) && k < |blocks| ==> Crc16.Intact(blocks[k])
  }

  lemma RangeOfBlocks(blocks: Packets, addr: nat, len: nat, got: seq<byte>)
    requires Sized(blocks) && len > 0
    ensures var k0, n := addr / 512 % 0x1_0000_0000, BlocksOf(addr, len);
            && 512 * k0 + addr % 512 == CardAddress(addr)
            && (k0 + n <= |blocks| <==> CardAddress(addr) + len <= 512 * |blocks|)
            && (k0 + n <= |blocks| ==> (AllIntact(blocks, k0, n) <==> RangeIntact(blocks, CardAddress(addr), len)))
            && (k0 + n <= |blocks| && got == Contents(blocks, 512 * k0 + addr % 512, len) ==>
                  Delivered(blocks, CardAddress(addr), len, got))
  {
    hide Crc16.Intact, Contents;
    BlockAddress(addr);
    assert BlocksOf(CardAddress(addr), len) == BlocksOf(addr, len);
  }

  // ----- Disks and damage

  /** What a card holding `disk` sends: every sector followed by its check bytes. */
  function PacketsOf(disk: seq<byte>): (blocks: Packets)
    requires |disk| % 512 == 0
    ensures |blocks| == |disk| / 512 && Sized(blocks)
  {
    seq(|disk| / 512, k requires 0 <= k < |disk| / 512 =>
      disk[512 * k..512 * k + 512] + Crc16.CheckBytes(disk[512 * k..512 * k + 512]))
  }

  /** The first 512 bytes of a packet are the sector. */
  lemma DiskByte(blocks: Packets, disk: seq<byte>, x: nat)
    requires |disk| % 512 == 0 && x < |disk| && Sized(blocks) && x / 512 < |blocks|
    requires blocks[x / 512] == PacketsOf(disk)[x / 512]
    ensures ByteAt(blocks, x) == disk[x]
  {
    hide Crc16.CheckBytes;
    var k := x / 512;
    assert PacketsOf(disk)[k][x % 512] == disk[512 * k..512 * k + 512][x % 512];
  }

  lemma DiskPacket(disk: seq<byte>, k: nat)
    requires |disk| % 512 == 0 && k < |disk| / 512
    ensures Crc16.Intact(PacketsOf(disk)[k])
  {
    hide Crc16.CheckBytes;
    var d := disk[512 * k..512 * k + 512];
    assert (d + Crc16.CheckBytes(d))[..512] == d && (d + Crc16.CheckBytes(d))[512..] == Crc16.CheckBytes(d);
  }

  /** `q` is `p` with a nonempty set of bits inverted that fits a window of sixteen. */
  ghost predicate BurstApart(p: seq<byte>, q: seq<byte>) {
    exists i: nat :: BurstAt(p, q, i)
  }

  ghost predicate BurstAt(p: seq<byte>, q: seq<byte>, i: nat) {
    && |p| == |q| && p != q
    && forall j :: 0 <= j < 8 * |p| && (j < i || i + 16 <= j) ==> Crc16.MessageBits(p)[j] == Crc16.MessageBits(q)[j]
  }

  /** An intact packet after a burst error, in its data, its check bytes or across both. */
  ghost predicate Damaged(q: seq<byte>) {
    exists p :: Crc16.Intact(p) && BurstApart(p, q)
  }

  ghost predicate HitsDamage(blocks: Packets, a: nat, len: nat)
    requires Sized(blocks)
  {
    exists k :: a / 512 <= k < a / 512 + BlocksOf(a, len) && k < |blocks| && Damaged(blocks[k])
  }

  /** The packets of `disk`, some of them damaged on their way. */
  ghost predicate Degraded(blocks: Packets, disk: seq<byte>)
    requires |disk| % 512 == 0
  {
    && |blocks| == |disk| / 512 && Sized(blocks)
    && forall k :: 0 <= k < |blocks| ==> blocks[k] == PacketsOf(disk)[k] || BurstApart(PacketsOf(disk)[k], blocks[k])
  }

  lemma PlainIsDegraded(disk: seq<byte>)
    requires |disk| % 512 == 0
    ensures Degraded(PacketsOf(disk), disk)
    ensures forall a: nat, len: nat :: Unharmed(PacketsOf(disk), disk, a, len)
  {
    hide PacketsOf;
  }

  /** The packets that a range touches have arrived as they were sent. */
  ghost predicate Unharmed(blocks: Packets, disk: seq<byte>, a: nat, len: nat)
    requires |disk| % 512 == 0 && |blocks| == |disk| / 512
  {
    forall k :: a / 512 <= k < a / 512 + BlocksOf(a, len) && k < |blocks| ==> blocks[k] == PacketsOf(disk)[k]
  }

  lemma DamagedNotIntact(q: seq<byte>)
    requires Damaged(q)
    ensures !Crc16.Intact(q)
  {
    hide Crc16.Intact, Crc16.MessageBits;
    var p :| Crc16.Intact(p) && BurstApart(p, q);
    var i: nat :| BurstAt(p, q, i);
    Crc16.PacketBurstDetected(p, q, i);
  }

  lemma DamageShows(blocks: Packets, a: nat, len: nat)
    requires Sized(blocks)
    ensures HitsDamage(blocks, a, len) ==> !RangeIntact(blocks, a, len)
  {
    hide Crc16.Intact, Damaged, BlocksOf;
    if HitsDamage(blocks, a, len) {
      var k :| a / 512 <= k < a / 512 + BlocksOf(a, len) && k < |blocks| && Damaged(blocks[k]);
      DamagedNotIntact(blocks[k]);
    }
  }

  /** The check bytes tell exactly which packets have been damaged. */
  lemma DegradedRange(blocks: Packets, disk: seq<byte>, a: nat, len: nat)
    requires |disk| % 512 == 0 && Degraded(blocks, disk)
    ensures RangeIntact(blocks, a, len) <==> Unharmed(blocks, disk, a, len)
    ensures 512 * |blocks| == |disk|
  {
    hide Crc16.Intact, PacketsOf, BlocksOf, BurstApart;
    forall k | 0 <= k < |blocks| ensures Crc16.Intact(blocks[k]) <==> blocks[k] == PacketsOf(disk)[k] {
      DiskPacket(disk, k);
      if blocks[k] != PacketsOf(disk)[k] {
        DamagedNotIntact(blocks[k]);
      }
    }
  }

  lemma DiskDelivered(blocks: Packets, disk: seq<byte>, a: nat, len: nat, got: seq<byte>)
    requires |disk| % 512 == 0 && Degraded(blocks, disk) && Unharmed(blocks, disk, a, len)
             && Delivered(blocks, a, len, got)
    ensures a + len <= |disk| && got == disk[a..a + len]
  {
    hide PacketsOf, ByteAt, BurstApart;
    forall i | 0 <= i < len ensures got[i] == disk[a..a + len][i] {
      assert a / 512 <= (a + i) / 512 < a / 512 + BlocksOf(a, len);
      DiskByte(blocks, disk, a + i);
    }
  }

  lemma Advance(p: Phase, check: bool, blocks: Packets, k0: nat, s: Span, b: nat, at: nat, d0: seq<byte>, d1: seq<byte>)
    requires Sized(blocks) && s.Valid() && b < s.blocks && |d0| == |d1| && at + s.Bytes() <= |d0|
    requires p.Ready? && p.block == k0 + b < |blocks| && (check ==> Crc16.Intact(blocks[k0 + b]))
    requires Progress(blocks, k0, s, b, d0[at..at + s.Got(b)], check)
    requires forall i :: 0 <= i < |d0| && !(at + s.Lo(b) <= i < at + s.Hi(b)) ==> d1[i] == d0[i]
    requires d1[at + s.Lo(b)..at + s.Hi(b)] == blocks[p.block][s.From(b)..s.To(b)]
    ensures Progress(blocks, k0, s, b + 1, d1[at..at + s.Got(b + 1)], check)
  {
    hide Progress, Crc16.Intact;
    assert s.Got(b) == s.Lo(b) && s.Got(b + 1) == s.Hi(b);
    assert d1[at..at + s.Lo(b)] == d0[at..at + s.Lo(b)];
    SliceJoin(d1, at, s.Lo(b), s.Hi(b) - s.Lo(b));
    ProgressStep(blocks, k0, s, b, d0[at..at + s.Got(b)], d1[at + s.Lo(b)..at + s.Hi(b)], check);
  }

  /** The phase in which block `b` of a request is due. */
  function Expected(k0: nat, multi: bool, b: nat): Phase {
    if b == 0 then Ready(k0, multi, 0) else AfterBlock(k0 + b - 1, multi)
  }

  /** The card owes or is sending data. */
  predicate Streaming(p: Phase) {
    p.Answer? || p.Ready? || p.Data?
  }

  ghost predicate AllIntact(blocks: Packets, from: nat, n: nat)
    requires Sized(blocks) && from + n <= |blocks|
  {
    forall k :: from <= k < from + n ==> Crc16.Intact(blocks[k])
  }

  /** `n` bytes of the card's contents from byte `a`. */
  function Contents(blocks: Packets, a: nat, n: nat): (d: seq<byte>)
    requires Sized(blocks) && a + n <= 512 * |blocks|
    ensures |d| == n
  {
    seq<byte>(n, i requires 0 <= i < n => ByteAt(blocks, a + i))
  }

  lemma ContentsStep(blocks: Packets, k0: nat, s: Span, b: nat)
    requires Sized(blocks) && s.Valid() && b < s.blocks && k0 + b < |blocks|
    ensures 512 * k0 + s.first + s.Hi(b) <= 512 * |blocks|
    ensures Contents(blocks, 512 * k0 + s.first, s.Hi(b))
         == Contents(blocks, 512 * k0 + s.first, s.Lo(b)) + blocks[k0 + b][s.From(b)..s.To(b)]
  {
    hide ByteAt, Contents;
    var a, lo, hi := 512 * k0 + s.first, s.Lo(b), s.Hi(b);
    assert a + lo == 512 * (k0 + b) + s.From(b) && a + hi == 512 * (k0 + b) + s.To(b);
    BlockContents(blocks, k0 + b, s.From(b), s.To(b));
    ContentsJoin(blocks, a, lo, hi - lo);
  }

  lemma ContentsJoin(blocks: Packets, a: nat, m: nat, n: nat)
    requires Sized(blocks) && a + m + n <= 512 * |blocks|
    ensures Contents(blocks, a, m + n) == Contents(blocks, a, m) + Contents(blocks, a + m, n)
  {
    hide ByteAt;
  }

  lemma BlockContents(blocks: Packets, k: nat, from: nat, to: nat)
    requires Sized(blocks) && k < |blocks| && from <= to <= 512
    ensures Contents(blocks, 512 * k + from, to - from) == blocks[k][from..to]
  {
    hide ByteAt;
    var c, p := Contents(blocks, 512 * k + from, to - from), blocks[k][from..to];
    forall i | 0 <= i < to - from ensures c[i] == p[i] {
      ByteOfBlock(blocks, k, from + i);
      assert 512 * k + from + i == 512 * k + (from + i);
    }
  }

  lemma ByteOfBlock(blocks: Packets, k: nat, i: nat)
    requires Sized(blocks) && k < |blocks| && i < 512
    ensures ByteAt(blocks, 512 * k + i) == blocks[k][i]
  {
    assert (512 * k + i) / 512 == k && (512 * k + i) % 512 == i;
  }

  /** What the first `b` blocks have delivered. */
  ghost predicate Progress(blocks: Packets, k0: nat, s: Span, b: nat, got: seq<byte>, check: bool)
    requires Sized(blocks) && s.Valid() && b <= s.blocks
  {
    b > 0 ==>
      && k0 + b <= |blocks|
      && 512 * k0 + s.first + s.Got(b) <= 512 * |blocks|
      && got == Contents(blocks, 512 * k0 + s.first, s.Got(b))
      && (check ==> AllIntact(blocks, k0, b))
  }

  lemma ProgressStart(blocks: Packets, k0: nat, s: Span, got: seq<byte>, check: bool)
    requires s.Valid()
    ensures Sized(blocks) ==> Progress(blocks, k0, s, 0, got, check)
  {}

  lemma ProgressStep(blocks: Packets, k0: nat, s: Span, b: nat, got: seq<byte>, more: seq<byte>, check: bool)
    requires Sized(blocks) && s.Valid() && b < s.blocks && |got| == s.Got(b) && Progress(blocks, k0, s, b, got, check)
    requires k0 + b < |blocks| && (check ==> Crc16.Intact(blocks[k0 + b]))
    requires more == blocks[k0 + b][s.From(b)..s.To(b)]
    ensures Progress(blocks, k0, s, b + 1, got + more, check)
  {
    hide Crc16.Intact;
    ContentsStep(blocks, k0, s, b);
    if b == 0 {
      assert got == [] == Contents(blocks, 512 * k0 + s.first, 0);
    }
  }

  lemma ProgressEnd(blocks: Packets, k0: nat, s: Span, got: seq<byte>, check: bool)
    requires Sized(blocks) && s.Valid() && Progress(blocks, k0, s, s.blocks, got, check)
    ensures k0 + s.blocks <= |blocks|
    ensures got == Contents(blocks, 512 * k0 + s.first, s.Bytes())
    ensures check ==> AllIntact(blocks, k0, s.blocks)
  {}

  lemma AcceptsRead(f: seq<byte>, multi: bool, k: nat)
    requires |f| == 6 && f[0] == (if multi then 0x52 else 0x51) && Argument(f) == k
    ensures Accept(f) == Answer(k, multi, 0)
  {}

  lemma AcceptsStop()
    ensures Accept(LeBytes(STOP, 6)) == Stuff
  {}

  lemma SliceOfSlice(a: seq<byte>, b: seq<byte>, from: nat, to: nat)
    requires from <= to <= 512 <= |a| && 512 <= |b| && a[0..512] == b[..512]
    ensures a[from..to] == b[from..to]
  {
    assert a[0..512][from..to] == b[..512][from..to];
  }

  /** How a byte range lies across aligned blocks. */
  datatype Span = Span(blocks: nat, first: nat, last: nat) {
    /** The first block has a byte after `first`, the last one a byte before `last`. */
    predicate Valid() {
      0 < blocks && first < 512 && 0 < last <= 512 && (blocks == 1 ==> first < last)
    }

    function Bytes(): nat
      requires Valid()
    {
      512 * (blocks - 1) + last - first
    }

    function Lo(b: nat): nat
      requires Valid() && b < blocks
    {
      if b == 0 then 0 else 512 * b - first
    }

    function Hi(b: nat): nat
      requires Valid() && b < blocks
    {
      if b == blocks - 1 then Bytes() else 512 * (b + 1) - first
    }

    /** How many bytes the first `b` blocks deliver. */
    function Got(b: nat): nat
      requires Valid() && b <= blocks
    {
      if b == 0 then 0 else Hi(b - 1)
    }

    /** The part of block `b` that is asked for. */
    function From(b: nat): nat {
      if b == 0 then first else 0
    }

    function To(b: nat): nat {
      if b == blocks - 1 then last else 512
    }
  }

  function Six(b0: byte, b1: byte, b2: byte, b3: byte, b4: byte, c: nat): nat {
    (b0 as nat) + 0x100 * (b1 as nat) + 0x1_0000 * (b2 as nat) + 0x100_0000 * (b3 as nat)
    + 0x1_0000_0000 * (b4 as nat) + 0x100_0000_0000 * c
  }

  lemma LeFive(b0: byte, b1: byte, b2: byte, b3: byte, b4: byte)
    ensures LeBytes(Six(b0, b1, b2, b3, b4, 0), 5) == [b0, b1, b2, b3, b4]
  {
    LePush(b4, 0, 0);
    hide LeBytes;
    LeFour(b0, b1, b2, b3, b4, 1);
    assert Six(b0, b1, b2, b3, b4, 0) == LowFour(b0, b1, b2, b3, b4);
  }

  lemma LeSix(b0: byte, b1: byte, b2: byte, b3: byte, b4: byte, c: byte)
    ensures LeBytes(Six(b0, b1, b2, b3, b4, c), 6) == [b0, b1, b2, b3, b4, c]
  {
    LePush(c, 0, 0);
    LePush(b4, c, 1);
    hide LeBytes;
    var x := (b4 as nat) + 256 * (c as nat);
    LeFour(b0, b1, b2, b3, x, 2);
    assert Six(b0, b1, b2, b3, b4, c) == LowFour(b0, b1, b2, b3, x);
  }

  function LowFour(b0: byte, b1: byte, b2: byte, b3: byte, rest: nat): nat {
    (b0 as nat) + 256 * ((b1 as nat) + 256 * ((b2 as nat) + 256 * ((b3 as nat) + 256 * rest)))
  }

  lemma LeTwo(b0: byte, b1: byte, rest: nat, n: nat)
    ensures LeBytes((b0 as nat) + 256 * ((b1 as nat) + 256 * rest), n + 2) == [b0] + ([b1] + LeBytes(rest, n))
  {
    hide LeBytes;
    LePush(b1, rest, n);
    LePush(b0, (b1 as nat) + 256 * rest, n + 1);
  }

  lemma LeFour(b0: byte, b1: byte, b2: byte, b3: byte, rest: nat, n: nat)
    ensures LeBytes(LowFour(b0, b1, b2, b3, rest), n + 4) == [b0] + ([b1] + ([b2] + ([b3] + LeBytes(rest, n))))
  {
    hide LeBytes;
    LeTwo(b2, b3, rest, n);
    LeTwo(b0, b1, (b2 as nat) + 256 * ((b3 as nat) + 256 * rest), n + 2);
  }

  lemma ArgumentDigits(arg: nat)
    ensures arg % 0x1_0000_0000 == 0x100_0000 * (arg / 0x100_0000 % 256) + 0x1_0000 * (arg / 0x1_0000 % 256)
                   + 0x100 * (arg / 0x100 % 256) + arg % 256
  {
    assert arg / 0x100 / 256 == arg / 0x1_0000 && arg / 0x1_0000 / 256 == arg / 0x100_0000;
  }

  predicate Released(w: Wire) {
    w != [] && w[|w| - 1] == CsFree
  }

  /** The last bytes received are `d`. */
  predicate Received(w: Wire, d: seq<byte>) {
    |d| <= |w| && w[|w| - |d|..] == Receives(d)
  }

  /** A response of these bytes ends a command, but for a release of the chip select unless it is kept. */
  predicate Answered(w: Wire, d: seq<byte>, csaat: bool) {
    if csaat then Received(w, d) else Released(w) && Received(w[..|w| - 1], d)
  }

  lemma ReceivedMore(w: Wire, d: seq<byte>, more: seq<byte>)
    requires Received(w, d)
    ensures Received(w + Receives(more), d + more)
  {
    var v := w + Receives(more);
    assert v[|v| - |d + more|..] == w[|w| - |d|..] + Receives(more);
    assert Receives(d + more) == Receives(d) + Receives(more);
  }

  lemma CommandByte(cmd: nat)
    ensures LeBytes(cmd, 6)[0] == cmd % 256
    ensures Accept(LeBytes(cmd, 6)) == Stuff <==> cmd % 256 == 0x4C
    ensures cmd % 256 == 0x4C ==> !Accept(LeBytes(cmd, 6)).Answer?
  {}

  lemma StuffByte(b: byte)
    ensures React(Stuff, Miso(b)) == StopAnswer(0)
  {}

  lemma PacketPhases(card: Card, w: Wire, p: Phase)
    ensures var d := Stream(card, w, 512);
            var v := w + Receives(d);
            var u := v + Receives(Stream(card, v, 2));
            && (p.Ready? && After(w) == Data(p.block, p.multi, 0) ==>
                  After(v) == Data(p.block, p.multi, 512) && After(u) == AfterBlock(p.block, p.multi))
            && (After(w) == Refused ==> After(u) == Refused)
  {
    var d := Stream(card, w, 512);
    var v := w + Receives(d);
    var c := Stream(card, v, 2);
    hide After, Stream, Receives;
    if p.Ready? && After(w) == Data(p.block, p.multi, 0) {
      AfterData(w, d, p.block, p.multi, 0);
      AfterData(v, c, p.block, p.multi, 512);
    }
    if After(w) == Refused {
      AfterRefused(w, d);
      AfterRefused(v, c);
    }
  }

  lemma PacketContents(card: Card, blocks: Packets, w: Wire, p: Phase)
    requires Serves(card, blocks) && p.Ready? && After(w) == Data(p.block, p.multi, 0) && p.block < |blocks|
    ensures |blocks[p.block]| == 514
    ensures var d := Stream(card, w, 512);
            var v := w + Receives(d);
            d == blocks[p.block][..512] && Stream(card, v, 2) == blocks[p.block][512..]
  {
    ServesSized(card, blocks);
    hide Serves, After;
    StreamData(card, blocks, w, p.block, p.multi, 0, 512);
    AfterData(w, Stream(card, w, 512), p.block, p.multi, 0);
    StreamData(card, blocks, w + Receives(Stream(card, w, 512)), p.block, p.multi, 512, 2);
  }

  lemma ServesSized(card: Card, blocks: Packets)
    requires Serves(card, blocks)
    ensures Sized(blocks)
  {}

  /** The driver's comparison as a statement about the packet. */
  lemma CheckMeans(d: seq<byte>, c0: byte, c1: byte)
    requires |d| == 512
    ensures Crc16.CrcValue(d) < 0x1_0000
    ensures (c0 as nat) + 256 * (c1 as nat) == Crc16.SwapBytes(Crc16.CrcValue(d)) <==> Crc16.Intact(d + [c0, c1])
  {
    Crc16.AcceptedExactly(d, c0, c1);
    assert (d + [c0, c1])[512..] == [c0, c1] && (d + [c0, c1])[..512] == d;
  }

  lemma SliceJoin(s: seq<byte>, from: nat, m: nat, n: nat)
    requires from + m + n <= |s|
    ensures s[from..from + m + n] == s[from..from + m] + s[from + m..from + m + n]
  {}
}
