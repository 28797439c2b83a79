/** The UART debug server of the boot ROM (sw/lib/hal/uart_debug.c) on the byte streams of
    sw/lib/dif/uart.c, and the polling loop of `boot_passive` (hw/bootrom/cheshire_bootrom.c) that
    starts it. The receiver loses nothing, and memory is the whole 64-bit address space. */
module UartDebug {
  import opened Common
  import opened Bits

  const READ: byte := 0x11
  const WRITE: byte := 0x12
  const EXEC: byte := 0x13
  const ACK: byte := 0x06
  const EOT: byte := 0x04
  const EOC: byte := 0x14

  // ----- The UART

  /** What the receiver answers to successive polls: nothing yet, or a byte that waits to be read. */
  type Slots = seq<Option<byte>>

  /** The bytes that will arrive. */
  function Incoming(slots: Slots): (d: seq<byte>)
    ensures |d| <= |slots|
  {
    if slots == [] then [] else (if slots[0].Some? then [slots[0].value] else []) + Incoming(slots[1..])
  }

  class Uart {
    var slots: Slots
    var tx: seq<byte>
    var wait: nat              // polls until the transmitter takes the next byte
    const pace: nat -> nat     // polls it needs after each byte

    constructor (slots: Slots, pace: nat -> nat)
      ensures this.slots == slots && tx == [] && this.pace == pace
    {
      this.slots, this.pace := slots, pace;
      tx, wait := [], pace(0);
    }

    /** `uart_read_ready`. */
    method ReadReady() returns (ready: bool)
      modifies this`slots
      ensures ready <==> old(slots) != [] && old(slots)[0].Some?
      ensures slots == if ready || old(slots) == [] then old(slots) else old(slots)[1..]
    {
      ready := slots != [] && slots[0].Some?;
      if !ready && slots != [] { slots := slots[1..]; }
    }

    /** `uart_read`; when nothing more will ever come, the loop that never ends yields `None`. */
    method Read() returns (b: Option<byte>)
      modifies this`slots
      ensures var d := Incoming(old(slots));
              if d == [] then b == None && slots == [] else b == Some(d[0]) && Incoming(slots) == d[1..]
    {
      var ready := ReadReady();
      while !ready && slots != []
        invariant Incoming(slots) == Incoming(old(slots))
        invariant ready ==> slots != [] && slots[0].Some?
        decreases |slots|, !ready
      {
        ready := ReadReady();
      }
      if !ready { return None; }
      b := Some(slots[0].value);
      slots := slots[1..];
    }

    /** `uart_write`. */
    method Write(b: byte)
      modifies this`tx, this`wait
      ensures tx == old(tx) + [b]
    {
      while wait > 0
        invariant tx == old(tx)
      {
        wait := wait - 1;
      }
      tx := tx + [b];
      wait := pace(|tx|);
    }

    /** `uart_read_str`: stops early only when nothing more will ever come. */
    method ReadStr(dst: array<byte>, at: nat, len: nat) returns (ok: bool)
      requires at < dst.Length && len <= dst.Length
      modifies this`slots, dst
      ensures var d := Incoming(old(slots));
              && dst[..] == Poke(old(dst[..]), at, Front(d, len))
              && Incoming(slots) == d[|Front(d, len)|..]
              && (ok <==> len <= |d|)
    {
      hide Poke, Incoming, Wrap;
      ghost var d, m := Incoming(slots), dst[..];
      PokeNothing(m, at);
      for i := 0 to len
        invariant i <= |d| && Incoming(slots) == d[i..] && dst[..] == Poke(m, at, d[..i])
      {
        var b := Read();
        if b == None {
          assert d[..i] == d;
          return false;
        }
        PokeStep(m, at, d[..i], b.value);
        assert d[..i] + [b.value] == d[..i + 1];
        dst[Wrap(at, i, dst.Length)] := b.value;
      }
      ok := true;
    }

    /** `uart_write_str`. */
    method WriteStr(src: array<byte>, at: nat, len: nat)
      requires at < src.Length && len <= src.Length
      modifies this`tx, this`wait
      ensures tx == old(tx) + Peek(src[..], at, len)
    {
      for i := 0 to len
        invariant tx == old(tx) + Peek(src[..], at, i)
      {
        Write(src[Wrap(at, i, src.Length)]);
        assert Peek(src[..], at, i + 1) == Peek(src[..], at, i) + [src[Wrap(at, i, src.Length)]];
      }
    }

    /** `uart_read_str` into a 64-bit variable. */
    method ReadWord() returns (w: Option<nat>)
      modifies this`slots
      ensures var d := Incoming(old(slots));
              if |d| < 8 then w == None && Incoming(slots) == []
              else w == Some(Word(d[..8])) && Incoming(slots) == d[8..]
    {
      hide LeValue, Incoming, Poke;
      var buf := new byte[8];
      ghost var was := buf[..];
      var ok := ReadStr(buf, 0, 8);
      if !ok { return None; }
      PokeAll(was, Incoming(old(slots))[..8]);
      w := Some(Word(buf[..]));
    }
  }

  function Front(d: seq<byte>, n: nat): (f: seq<byte>)
    ensures |f| <= |d|
  {
    if n <= |d| then d[..n] else d
  }

  // ----- Memory

  /** The cell `i` after `at`, wrapping around at the end of memory. */
  function Wrap(at: nat, i: nat, size: nat): (a: nat)
    requires at < size && i < size
    ensures a < size && (a == at + i || a == at + i - size)
  {
    if at + i < size then at + i else at + i - size
  }

  /** How far `a` lies after `at`. */
  function Offset(a: nat, at: nat, size: nat): (i: nat)
    requires a < size && at < size
    ensures i < size && Wrap(at, i, size) == a
  {
    if at <= a then a - at else a - at + size
  }

  /** `d` written at `at`. */
  function Poke(m: seq<byte>, at: nat, d: seq<byte>): (m': seq<byte>)
    requires at < |m|
    ensures |m'| == |m|
  {
    seq<byte>(|m|, a requires 0 <= a < |m| => var i := Offset(a, at, |m|); if i < |d| then d[i] else m[a])
  }

  /** `n` bytes read from `at`. */
  function Peek(m: seq<byte>, at: nat, n: nat): (d: seq<byte>)
    requires at < |m| && n <= |m|
    ensures |d| == n
  {
    seq<byte>(n, i requires 0 <= i < n => m[Wrap(at, i, |m|)])
  }

  lemma PokeNothing(m: seq<byte>, at: nat)
    requires at < |m|
    ensures Poke(m, at, []) == m
  {}

  lemma PokeStep(m: seq<byte>, at: nat, d: seq<byte>, b: byte)
    requires at < |m| && |d| < |m|
    ensures Poke(m, at, d + [b]) == Poke(m, at, d)[Wrap(at, |d|, |m|) := b]
  {}

  lemma PokeAll(m: seq<byte>, d: seq<byte>)
    requires 0 < |m| == |d|
    ensures Poke(m, 0, d) == d
  {}

  lemma PeekAll(m: seq<byte>)
    requires 0 < |m|
    ensures Peek(m, 0, |m|) == m
  {}

  lemma Slices(d: seq<byte>, i: nat, n: nat)
    requires i + n <= |d|
    ensures d[i..][..n] == d[i..i + n] && d[i..][n..] == d[i + n..]
  {}

  /** What was written is read back, and nothing else has changed. */
  lemma ReadBack(m: seq<byte>, at: nat, d: seq<byte>)
    requires at < |m| && |d| <= |m|
    ensures Peek(Poke(m, at, d), at, |d|) == d
    ensures forall a :: 0 <= a < |m| && Offset(a, at, |m|) >= |d| ==> Poke(m, at, d)[a] == m[a]
  {
    forall i | 0 <= i < |d| ensures Poke(m, at, d)[Wrap(at, i, |m|)] == d[i] {
      assert Offset(Wrap(at, i, |m|), at, |m|) == i;
    }
  }

  // ----- The commands and what they mean

  datatype Cmd = ReadCmd(addr: nat, len: nat) | WriteCmd(addr: nat, data: seq<byte>)

  predicate Valid(c: Cmd) {
    c.addr < TWO_64 && (if c.ReadCmd? then c.len else |c.data|) < TWO_64
  }

  predicate AllValid(cmds: seq<Cmd>) {
    forall i :: 0 <= i < |cmds| ==> Valid(cmds[i])
  }

  /** The bytes a host sends for a command. */
  function Encode(c: Cmd): seq<byte> {
    match c
    case ReadCmd(addr, len) => [0x11] + LeBytes(addr, 8) + LeBytes(len, 8)
    case WriteCmd(addr, data) => [0x12] + LeBytes(addr, 8) + LeBytes(|data|, 8) + data
  }

  function EncodeAll(cmds: seq<Cmd>): seq<byte> {
    if cmds == [] then [] else Encode(cmds[0]) + EncodeAll(cmds[1..])
  }

  function EncodeExec(addr: nat): seq<byte> {
    [0x13] + LeBytes(addr, 8)
  }

  /** Memory after a command. */
  function Apply(m: seq<byte>, c: Cmd): (m': seq<byte>)
    requires |m| == TWO_64 && Valid(c)
    ensures |m'| == TWO_64
  {
    match c
    case ReadCmd(_, _) => m
    case WriteCmd(addr, data) => Poke(m, addr, data)
  }

  /** What the host gets back for it. */
  function Reply(m: seq<byte>, c: Cmd): seq<byte>
    requires |m| == TWO_64 && Valid(c)
  {
    match c
    case ReadCmd(addr, len) => [0x06] + Peek(m, addr, len) + [0x04]
    case WriteCmd(_, _) => [0x06, 0x04]
  }

  function ApplyAll(m: seq<byte>, cmds: seq<Cmd>): (m': seq<byte>)
    requires |m| == TWO_64 && AllValid(cmds)
    ensures |m'| == TWO_64
    decreases |cmds|
  {
    if cmds == [] then m else ApplyAll(Apply(m, cmds[0]), cmds[1..])
  }

  function ReplyAll(m: seq<byte>, cmds: seq<Cmd>): seq<byte>
    requires |m| == TWO_64 && AllValid(cmds)
    decreases |cmds|
  {
    if cmds == [] then [] else Reply(m, cmds[0]) + ReplyAll(Apply(m, cmds[0]), cmds[1..])
  }

  // ----- The server

  /** The number in eight bytes. */
  function Word(d: seq<byte>): (w: nat)
    requires |d| == 8
    ensures w < TWO_64
  {
    LeOfValue(d);
    assert Pow256(4) == TWO_32 && Pow256(8) == TWO_64;
    LeValue(d)
  }

  /** What invoked code does to memory, and the register it returns. */
  datatype Code = Code(effect: (nat, seq<byte>) -> seq<byte>, value: (nat, seq<byte>) -> nat)

  ghost predicate Sound(code: Code) {
    forall a: nat, m: seq<byte> :: |code.effect(a, m)| == |m|
  }

  /** An `int` with the bits of a `uint32_t`. */
  function Signed(v: nat): (r: int)
    ensures v < 0x1_0000_0000 ==> -0x8000_0000 <= r < 0x8000_0000 && (r == v || r == v - 0x1_0000_0000)
  {
    if v < 0x8000_0000 then v else v - TWO_32
  }

  datatype End = Going | Waiting | Returned(ret: int)

  /** Memory, the bytes sent, the input left over, and whether the server goes on,
      waits for ever, or has returned. */
  datatype Session = Session(m: seq<byte>, sent: seq<byte>, rest: seq<byte>, end: End)

  /** One command; input that never becomes complete leaves the server waiting. */
  function One(code: Code, m: seq<byte>, d: seq<byte>): (s: Session)
    requires |m| == TWO_64
    ensures Sound(code) ==> |s.m| == TWO_64
    ensures s.end == Going ==> |s.rest| < |d| && |s.m| == TWO_64
  {
    if d == [] then Session(m, [], [], Waiting)
    else if d[0] == READ then
      if |d| < 17 then Session(m, [], [], Waiting)
      else Session(m, Reply(m, ReadCmd(Word(d[1..9]), Word(d[9..17]))), d[17..], Going)
    else if d[0] == WRITE then
      if |d| < 17 then Session(m, [], [], Waiting)
      else
        var addr, len := Word(d[1..9]), Word(d[9..17]);
        if |d| < 17 + len then Session(Poke(m, addr, d[17..]), [ACK], [], Waiting)
        else Session(Poke(m, addr, d[17..17 + len]), [ACK, EOT], d[17 + len..], Going)
    else if d[0] == EXEC then
      if |d| < 9 then Session(m, [], [], Waiting)
      else
        var addr := Word(d[1..9]);
        var v := code.value(addr, m) % TWO_32;
        Session(code.effect(addr, m), [ACK, EOC] + LeBytes(v, 4), d[9..], Returned(Signed(v)))
    else Session(m, [], d[1..], Returned(1))
  }

  /** The server after its greeting, on any input. */
  function Served(code: Code, m: seq<byte>, d: seq<byte>): (s: Session)
    requires |m| == TWO_64
    decreases |d|
  {
    var s := One(code, m, d);
    if s.end != Going then s
    else
      var t := Served(code, s.m, s.rest);
      t.(sent := s.sent + t.sent)
  }

  /** One round of the command loop. */
  method ServeOne(u: Uart, mem: array<byte>, code: Code) returns (end: End)
    requires mem.Length == TWO_64 && Sound(code)
    modifies u`slots, u`tx, u`wait, mem
    ensures var s := One(code, old(mem[..]), Incoming(old(u.slots)));
            mem[..] == s.m && u.tx == old(u.tx) + s.sent && Incoming(u.slots) == s.rest && end == s.end
  {
    hide Poke, Peek, Incoming, Word, LeBytes, Pow256;
    ghost var d, m := Incoming(u.slots), mem[..];
    var cmd := u.Read();
    if cmd == None { return Waiting; }
    if cmd.value == READ || cmd.value == WRITE {
      var addr := u.ReadWord();
      if addr == None { return Waiting; }
      var len := u.ReadWord();
      if len == None { return Waiting; }
      Slices(d, 1, 8);
      Slices(d, 9, 8);
      u.Write(ACK);
      if cmd.value == READ {
        u.WriteStr(mem, addr.value, len.value);
      } else {
        var ok := u.ReadStr(mem, addr.value, len.value);
        Slices(d, 17, |Front(d[17..], len.value)|);
        if !ok { return Waiting; }
      }
      u.Write(EOT);
      end := Going;
    } else if cmd.value == EXEC {
      assert [EXEC] + d[1..] == d;
      end := ServeExec(u, mem, code);
    } else {
      end := Returned(1);
    }
  }

  /** `invoke`. */
  method Invoke(mem: array<byte>, code: Code, addr: nat) returns (ret: nat)
    requires Sound(code)
    modifies mem
    ensures mem[..] == code.effect(addr, old(mem[..])) && ret == code.value(addr, old(mem[..])) % TWO_32
  {
    var m := mem[..];
    ret := code.value(addr, m) % TWO_32;
    var after := code.effect(addr, m);
    forall i | 0 <= i < mem.Length { mem[i] := after[i]; }
  }

  /** The EXEC branch, after its opcode byte. */
  method ServeExec(u: Uart, mem: array<byte>, code: Code) returns (end: End)
    requires mem.Length == TWO_64 && Sound(code)
    modifies u`slots, u`tx, u`wait, mem
    ensures var s := One(code, old(mem[..]), [EXEC] + Incoming(old(u.slots)));
            mem[..] == s.m && u.tx == old(u.tx) + s.sent && Incoming(u.slots) == s.rest && end == s.end
  {
    hide Peek, Incoming, Word, LeBytes, Pow256, Signed, Front;
    ghost var d := [EXEC] + Incoming(u.slots);
    var addr := u.ReadWord();
    if addr == None { return Waiting; }
    Slices(d, 1, 8);
    u.Write(ACK);
    var ret := Invoke(mem, code, addr.value);
    u.Write(EOC);
    var word := new byte[4](i requires 0 <= i < 4 => LeBytes(ret, 4)[i]);
    u.WriteStr(word, 0, 4);
    assert word[..] == LeBytes(ret, 4);
    PeekAll(word[..]);
    end := Returned(Signed(ret));
  }

  /** `uart_debug_serve`. */
  method Serve(u: Uart, mem: array<byte>, code: Code) returns (end: End)
    requires mem.Length == TWO_64 && Sound(code)
    modifies u`slots, u`tx, u`wait, mem
    ensures var s := Served(code, old(mem[..]), Incoming(old(u.slots)));
            mem[..] == s.m && u.tx == old(u.tx) + [ACK] + s.sent && Incoming(u.slots) == s.rest && end == s.end
  {
    hide One, Incoming;
    u.Write(ACK);
    end := Going;
    ghost var all := Served(code, mem[..], Incoming(u.slots));
    while end == Going
      invariant end == Going ==>
                  var s := Served(code, mem[..], Incoming(u.slots));
                  all == s.(sent := all.sent) && old(u.tx) + [ACK] + all.sent == u.tx + s.sent
      invariant end != Going ==>
                  all == Session(mem[..], all.sent, Incoming(u.slots), end) && old(u.tx) + [ACK] + all.sent == u.tx
      decreases if end == Going then 1 + |Incoming(u.slots)| else 0
    {
      end := ServeOne(u, mem, code);
    }
  }

  // ----- The server refines the interpreter

  lemma WordBytes(x: nat)
    requires x < TWO_64
    ensures Word(LeBytes(x, 8)) == x
  {
    assert Pow256(4) == TWO_32 && Pow256(8) == TWO_64;
    LeRoundTrip(x, 8);
  }

  lemma CommandServed(code: Code, m: seq<byte>, c: Cmd, rest: seq<byte>)
    requires |m| == TWO_64 && Valid(c)
    ensures One(code, m, Encode(c) + rest) == Session(Apply(m, c), Reply(m, c), rest, Going)
  {
    hide Poke, Peek, Word, LeBytes;
    var d := Encode(c) + rest;
    WordBytes(c.addr);
    assert d[1..9] == LeBytes(c.addr, 8);
    if c.ReadCmd? {
      WordBytes(c.len);
      assert d[9..17] == LeBytes(c.len, 8) && d[17..] == rest;
    } else {
      WordBytes(|c.data|);
      assert d[9..17] == LeBytes(|c.data|, 8) && d[17..17 + |c.data|] == c.data && d[17 + |c.data|..] == rest;
    }
  }

  lemma ExecServed(code: Code, m: seq<byte>, addr: nat, rest: seq<byte>)
    requires |m| == TWO_64 && addr < TWO_64
    ensures var v := code.value(addr, m) % TWO_32;
            One(code, m, EncodeExec(addr) + rest)
            == Session(code.effect(addr, m), [ACK, EOC] + LeBytes(v, 4), rest, Returned(Signed(v)))
  {
    hide Word, LeBytes, Signed;
    var d := EncodeExec(addr) + rest;
    WordBytes(addr);
    assert d[1..9] == LeBytes(addr, 8) && d[9..] == rest;
  }

  /** On well-formed commands ended by EXEC the server does what the interpreter does, sends its
      replies and the return code, and takes exactly the bytes of the commands. */
  lemma {:induction false} ServedRefines(code: Code, m: seq<byte>, cmds: seq<Cmd>, addr: nat, rest: seq<byte>)
    requires |m| == TWO_64 && AllValid(cmds) && addr < TWO_64
    ensures var m' := ApplyAll(m, cmds);
            var v := code.value(addr, m') % TWO_32;
            Served(code, m, EncodeAll(cmds) + EncodeExec(addr) + rest)
            == Session(code.effect(addr, m'), ReplyAll(m, cmds) + [0x06, 0x14] + LeBytes(v, 4), rest,
                       Returned(Signed(v)))
    decreases |cmds|
  {
    hide LeBytes, Apply, Reply, Encode, EncodeExec, Signed, One;
    var d := EncodeAll(cmds) + EncodeExec(addr) + rest;
    if cmds == [] {
      assert d == EncodeExec(addr) + rest;
      ExecServed(code, m, addr, rest);
    } else {
      var more := EncodeAll(cmds[1..]) + EncodeExec(addr) + rest;
      assert d == Encode(cmds[0]) + more;
      CommandServed(code, m, cmds[0], more);
      ServedRefines(code, Apply(m, cmds[0]), cmds[1..], addr, rest);
    }
  }

  // ----- Waiting for a debug request

  /** Where the polling loop of `boot_passive` ends: no further polls, the start signal, or a debug
      request with these slots left. */
  datatype Passive = Idle | Started | Debug(rest: Slots)

  predicate StartBit(v: nat) {
    v / 2 % 2 == 1
  }

  function Awaited(slots: Slots, polls: seq<nat>): Passive {
    if polls == [] then Idle
    else if StartBit(polls[0]) then Started
    else if slots == [] then Awaited([], polls[1..])
    else if slots[0] == Some(ACK) then Debug(slots[1..])
    else Awaited(slots[1..], polls[1..])
  }

  /** Noise before the first ACK changes nothing: a debug session starts exactly if the first ACK
      comes before the start signal and the end of polling, with what follows that ACK. */
  lemma {:induction false} DebugExactly(noise: Slots, after: Slots, polls: seq<nat>)
    requires Some(ACK) !in noise
    ensures Awaited(noise + [Some(ACK)] + after, polls) == Debug(after)
            <==> |noise| < |polls| && forall i :: 0 <= i <= |noise| ==> !StartBit(polls[i])
  {
    var slots := noise + [Some(ACK)] + after;
    if polls == [] || StartBit(polls[0]) {
    } else if noise == [] {
      assert slots[1..] == after;
    } else {
      DebugExactly(noise[1..], after, polls[1..]);
      assert slots[1..] == noise[1..] + [Some(ACK)] + after;
    }
  }

  /** The second lowest bit of a poll is set, and no ACK waits at an earlier poll. */
  predicate StartsAt(slots: Slots, polls: seq<nat>, i: nat) {
    i < |polls| && polls[i] % 4 >= 2 && forall j :: 0 <= j < i && j < |slots| ==> slots[j] != Some(0x06)
  }

  /** An ACK waits at a poll, and neither it nor an earlier one has that bit set. */
  predicate DebugAt(slots: Slots, polls: seq<nat>, i: nat) {
    i < |polls| && i < |slots| && slots[i] == Some(0x06) && forall j :: 0 <= j <= i ==> polls[j] % 4 < 2
  }

  /** What follows a poll that neither starts nor finds an ACK. */
  lemma NextPoll(slots: Slots, polls: seq<nat>, i: nat)
    requires polls != [] && polls[0] % 4 < 2 && (slots == [] || slots[0] != Some(0x06))
    ensures var later := if slots == [] then [] else slots[1..];
            && (StartsAt(later, polls[1..], i) <==> StartsAt(slots, polls, i + 1))
            && (DebugAt(later, polls[1..], i) <==> DebugAt(slots, polls, i + 1))
  {
    var later := if slots == [] then [] else slots[1..];
    assert forall j :: 0 <= j < |polls| - 1 ==> polls[1..][j] == polls[j + 1];
    assert forall j :: 0 <= j < |later| ==> later[j] == slots[j + 1];
    if DebugAt(later, polls[1..], i) {
      forall j | 0 <= j <= i + 1 ensures polls[j] % 4 < 2 {
        assert j > 0 ==> polls[j] == polls[1..][j - 1];
      }
    }
    if StartsAt(later, polls[1..], i) {
      forall j | 0 <= j < i + 1 && j < |slots| ensures slots[j] != Some(0x06) {
        assert j > 0 ==> slots[j] == later[j - 1];
      }
    }
  }

  /** Which of the two comes first, told poll by poll. */
  lemma {:induction false} AwaitedExactly(slots: Slots, polls: seq<nat>)
    ensures Awaited(slots, polls) == Started <==> exists i: nat :: StartsAt(slots, polls, i)
    ensures Awaited(slots, polls).Debug? <==> exists i: nat :: DebugAt(slots, polls, i)
    decreases |polls|
  {
    if polls == [] {
    } else if StartBit(polls[0]) {
      assert StartsAt(slots, polls, 0);
    } else if slots != [] && slots[0] == Some(ACK) {
      assert DebugAt(slots, polls, 0);
    } else {
      var later := if slots == [] then [] else slots[1..];
      AwaitedExactly(later, polls[1..]);
      if i: nat :| StartsAt(later, polls[1..], i) { NextPoll(slots, polls, i); }
      if i: nat :| DebugAt(later, polls[1..], i) { NextPoll(slots, polls, i); }
      if i: nat :| StartsAt(slots, polls, i) { NextPoll(slots, polls, i - 1); }
      if i: nat :| DebugAt(slots, polls, i) { NextPoll(slots, polls, i - 1); }
    }
  }

  datatype Boot = Pending | Jump(address: nat) | Debugged(end: End)

  /** `boot_passive`: `polls` are the values of scratch register 2 at successive polls. */
  method BootPassive(u: Uart, mem: array<byte>, code: Code, polls: seq<nat>, scratch: array<nat>) returns (out: Boot)
    requires mem.Length == TWO_64 && Sound(code) && scratch.Length == 16
    modifies u`slots, u`tx, u`wait, mem, scratch
    ensures match Awaited(old(u.slots), polls)
            case Idle =>
              && out == Pending && mem[..] == old(mem[..]) && u.tx == old(u.tx) && scratch[..] == old(scratch[..])
            case Started =>
              && out == Jump(old(scratch[1]) * TWO_32 + old(scratch[0])) && mem[..] == old(mem[..])
              && u.tx == old(u.tx) && scratch[..] == old(scratch[..])[2 := 0]
            case Debug(rest) =>
              var s := Served(code, old(mem[..]), Incoming(rest));
              && out == Debugged(s.end) && mem[..] == s.m && u.tx == old(u.tx) + [ACK] + s.sent
              && Incoming(u.slots) == s.rest && scratch[..] == old(scratch[..])
    ensures out.Jump? <==> exists i: nat :: StartsAt(old(u.slots), polls, i)
    ensures out.Debugged? <==> exists i: nat :: DebugAt(old(u.slots), polls, i)
  {
    hide Served, Incoming;
    AwaitedExactly(u.slots, polls);
    for i := 0 to |polls|
      invariant Awaited(u.slots, polls[i..]) == Awaited(old(u.slots), polls)
      invariant mem[..] == old(mem[..]) && u.tx == old(u.tx) && scratch[..] == old(scratch[..])
    {
      assert polls[i..][1..] == polls[i + 1..];
      if StartBit(polls[i]) {
        scratch[2] := 0;
        return Jump(scratch[1] * TWO_32 + scratch[0]);
      }
      var request := Check(u);
      if request {
        var end := Serve(u, mem, code);
        return Debugged(end);
      }
    }
    out := Pending;
  }

  /** A whole session: whatever noise comes first, and however the bytes are spaced, after the opening
      ACK the commands have the interpreter's effect, the code runs, and its result is returned. */
  method DebugSession(u: Uart, mem: array<byte>, code: Code, polls: seq<nat>, scratch: array<nat>,
                      ghost noise: Slots, ghost after: Slots, ghost cmds: seq<Cmd>,
                      ghost addr: nat, ghost rest: seq<byte>)
    returns (out: Boot)
    requires mem.Length == TWO_64 && Sound(code) && scratch.Length == 16 && AllValid(cmds) && addr < TWO_64
    requires u.slots == noise + [Some(0x06)] + after && Some(0x06) !in noise
    requires |noise| < |polls| && forall i :: 0 <= i <= |noise| ==> polls[i] % 4 < 2
    requires Incoming(after) == EncodeAll(cmds) + EncodeExec(addr) + rest
    modifies u`slots, u`tx, u`wait, mem, scratch
    ensures var m := ApplyAll(old(mem[..]), cmds);
            var v := code.value(addr, m) % TWO_32;
            && out == Debugged(Returned(Signed(v))) && mem[..] == code.effect(addr, m)
            && u.tx == old(u.tx) + [0x06] + (ReplyAll(old(mem[..]), cmds) + [0x06, 0x14] + LeBytes(v, 4))
            && Incoming(u.slots) == rest && scratch[..] == old(scratch[..])
  {
    hide Served, Incoming, EncodeAll, EncodeExec, ApplyAll, ReplyAll, LeBytes, Signed, Awaited;
    DebugExactly(noise, after, polls);
    ServedRefines(code, mem[..], cmds, addr, rest);
    out := BootPassive(u, mem, code, polls, scratch);
  }

  /** `uart_debug_check`. */
  method Check(u: Uart) returns (request: bool)
    modifies u`slots
    ensures request == (old(u.slots) != [] && old(u.slots)[0] == Some(ACK))
    ensures u.slots == if old(u.slots) == [] then [] else old(u.slots)[1..]
  {
    request := false;
    var ready := u.ReadReady();
    if ready {
      request := u.slots[0].value == ACK;
      u.slots := u.slots[1..];
    }
  }
}
