/** The GUID partition table search of sw/lib/gpt.c. */
module Gpt {
  import opened Common
  import opened Bits
  import SdCard
  import opened SpiSdcard
  import opened GptTable

  /** Addresses in the boot ROM image: its read function, the device handle, its global pointer. */
  datatype Rom = Rom(read: nat, priv: nat, gp: nat)

  /** `n` bytes as a read of `addr` finds them; zeros where the disk has ended. */
  function Look(disk: seq<byte>, addr: nat, n: nat): (d: seq<byte>)
    ensures |d| == n
  {
    var a := CardAddress(addr);
    if a + n <= |disk| then disk[a..a + n] else seq<byte>(n, _ => 0)
  }

  predicate OnDisk(disk: seq<byte>, addr: nat, n: nat) {
    CardAddress(addr) + n <= |disk|
  }

  /** A `gpt_read_t` with the state behind it: the SD driver, and in the second stage the pointers
      through which `grread` reaches it. */
  class Reader {
    const sd: Driver
    const rom: Rom
    ghost const disk: seq<byte>
    ghost const blocks: SdCard.Packets  // what the card sends: the disk's packets, some perhaps damaged
    var gp: nat
    var relocated: bool
    var rread: nat
    var rgp: nat

    constructor (sd: Driver, rom: Rom, ghost disk: seq<byte>, ghost blocks: SdCard.Packets)
      requires sd.Valid() && |disk| % 512 == 0 && Degraded(blocks, disk) && SdCard.Serves(sd.card, blocks)
      ensures Valid() && !relocated && this.sd == sd && this.rom == rom && this.disk == disk && this.blocks == blocks
    {
      this.sd, this.rom, this.disk, this.blocks := sd, rom, disk, blocks;
      gp, relocated, rread, rgp := rom.gp, false, 0, 0;
    }

    ghost predicate Valid()
      reads this, sd
    {
      && sd.Valid() && |disk| % 512 == 0 && Degraded(blocks, disk) && SdCard.Serves(sd.card, blocks)
      && (if relocated then rread == rom.read && rgp == rom.gp && rgp != 0 && gp != 0 else gp == rom.gp)
    }

    lemma DiskSized()
      requires Valid()
      ensures |disk| % 512 == 0
    {}

    /** Every read that stays on the disk succeeds. */
    ghost predicate Dependable()
      reads this
      requires |disk| % 512 == 0
    {
      sd.Reliable() && SdCard.Prompt(sd.card, blocks) && blocks == PacketsOf(disk)
    }

    /** `gprw`: a zero leaves the register alone. */
    method Gprw(v: nat) returns (old_gp: nat)
      modifies this`gp
      ensures old_gp == old(gp) && gp == if v != 0 then v else old(gp)
    {
      old_gp := gp;
      if v != 0 { gp := v; }
    }

    /** The read function in the ROM image, which must be entered at its address, with its device handle
        and under its global pointer. */
    method CallRom(fn: nat, priv: nat, buf: array<byte>, at: nat, addr: nat, len: nat) returns (ret: int)
      requires fn == rom.read && priv == rom.priv && gp == rom.gp
      requires sd.Valid() && |disk| % 512 == 0 && Degraded(blocks, disk) && SdCard.Serves(sd.card, blocks)
      requires at + len <= buf.Length && addr < TWO_64 && len < TWO_64 && addr % 512 + len <= TWO_64
      modifies sd, buf
      ensures sd.Valid() && Untouched(old(buf[..]), buf[..], at, len)
      ensures Transfers(addr, len) && ret == 0 ==> OnDisk(disk, addr, len) && buf[at..at + len] == Look(disk, addr, len)
      ensures !Transfers(addr, len) ==> ret == 0
      ensures Transfers(addr, len) && Dependable() ==> (ret == 0 <==> OnDisk(disk, addr, len))
    {
      hide SdCard.Serves, SdCard.Prompt, CardAddress, PacketsOf, Degraded, Unharmed;
      PlainIsDegraded(disk);
      ret := sd.ReadCheckCrc(buf, at, addr, len, blocks, disk);
    }

    /** `spi_sdcard_read_checkcrc`, or `grread` around it: the ROM's code runs under the ROM's gp. */
    method Read(priv: nat, buf: array<byte>, at: nat, addr: nat, len: nat) returns (ret: int)
      requires Valid() && priv == rom.priv && at + len <= buf.Length
      requires addr < TWO_64 && len < TWO_64 && addr % 512 + len <= TWO_64
      modifies this`gp, sd, buf
      ensures Valid() && gp == old(gp)
      ensures Untouched(old(buf[..]), buf[..], at, len)
      ensures Transfers(addr, len) && ret == 0 ==> OnDisk(disk, addr, len) && buf[at..at + len] == Look(disk, addr, len)
      ensures !Transfers(addr, len) ==> ret == 0
      ensures Transfers(addr, len) && Dependable() ==> (ret == 0 <==> OnDisk(disk, addr, len))
    {
      hide SdCard.Serves, SdCard.Prompt, CardAddress, PacketsOf, Degraded, Unharmed;
      if relocated {
        var zslGp := Gprw(rgp);
        ret := CallRom(rread, priv, buf, at, addr, len);
        var romGp := Gprw(zslGp);
      } else {
        ret := CallRom(rom.read, priv, buf, at, addr, len);
      }
    }
  }

  // ----- The table as the source decodes it

  const SIGNATURE: nat := 0x5452_4150_2049_4645
  const HEADER: nat := 0x200 + 0x48

  datatype Header = Header(lba: nat, count: nat, size: nat)
  datatype Range = Range(begin: nat, end: nat)

  function Word(d: seq<byte>, i: nat): nat
    requires i + 8 <= |d|
  {
    LeValue(d[i..i + 8])
  }

  function Half(d: seq<byte>, i: nat): nat
    requires i + 4 <= |d|
  {
    LeValue(d[i..i + 4])
  }

  function HeaderOf(d: seq<byte>): Header
    requires |d| == 16
  {
    Header(Word(d, 0), Half(d, 8), Half(d, 12))
  }

  function RangeOf(d: seq<byte>): Range
    requires |d| == 16
  {
    Range(Word(d, 0), Word(d, 8))
  }

  function GuidOf(d: seq<byte>): Guid
    requires |d| == 16
  {
    Guid(Word(d, 0), Word(d, 8))
  }

  function TableHeader(disk: seq<byte>): Header {
    HeaderOf(Look(disk, HEADER, 16))
  }

  /** Byte address of entry `p`. */
  function EntryAt(h: Header, p: nat): nat {
    U64(0x200 * h.lba + p * h.size)
  }

  function EntryRange(disk: seq<byte>, h: Header, p: nat): Range {
    RangeOf(Look(disk, U64(EntryAt(h, p) + 0x20), 16))
  }

  function TypeGuid(disk: seq<byte>, h: Header, p: nat): Guid {
    GuidOf(Look(disk, EntryAt(h, p), 16))
  }

  function PartGuid(disk: seq<byte>, h: Header, p: nat): Guid {
    GuidOf(Look(disk, U64(EntryAt(h, p) + 0x10), 16))
  }

  predicate Signed(disk: seq<byte>) {
    Word(Look(disk, 0x200, 8), 0) == SIGNATURE
  }

  predicate Fits(r: Range, maxLbas: nat) {
    U64(r.end - r.begin) < maxLbas
  }

  predicate GuidHit(disk: seq<byte>, h: Header, p: nat, w: Wanted) {
    || (w.tguid.Some? && TypeGuid(disk, h, p) == w.tguid.value)
    || (w.pguid.Some? && PartGuid(disk, h, p) == w.pguid.value)
  }

  predicate Hit(disk: seq<byte>, p: nat, w: Wanted) {
    var h := TableHeader(disk);
    Fits(EntryRange(disk, h, p), w.maxLbas) && GuidHit(disk, h, p, w)
  }

  /** Entry `p` is the first one that fits and matches. */
  ghost predicate FirstHit(disk: seq<byte>, p: nat, w: Wanted) {
    && p < TableHeader(disk).count && Hit(disk, p, w)
    && forall q :: 0 <= q < p ==> !Hit(disk, q, w)
  }

  ghost predicate NoHit(disk: seq<byte>, w: Wanted) {
    forall q :: 0 <= q < TableHeader(disk).count ==> !Hit(disk, q, w)
  }

  /** The first entry, cut to the largest bootable size. */
  function Fallback(disk: seq<byte>, maxLbas: nat): Range {
    CutRange(EntryRange(disk, TableHeader(disk), 0), maxLbas)
  }

  function CutRange(r: Range, maxLbas: nat): Range {
    var top := U64(r.begin + maxLbas - 1);
    Range(r.begin, if r.end <= top then r.end else top)
  }

  /** All the search may read is there. */
  ghost predicate TableOnDisk(disk: seq<byte>) {
    var h := TableHeader(disk);
    && OnDisk(disk, HEADER, 16)
    && forall p :: 0 <= p < h.count ==>
                     && OnDisk(disk, EntryAt(h, p), 16)
                     && OnDisk(disk, U64(EntryAt(h, p) + 0x10), 16)
                     && OnDisk(disk, U64(EntryAt(h, p) + 0x20), 16)
  }

  // ----- A table as it is written is found as it is read

  lemma Eight(d: seq<byte>, i: nat, x: nat)
    requires i + 8 <= |d| && d[i..i + 8] == LeBytes(x, 8) && x < TWO_64
    ensures Word(d, i) == x
  {
    assert Pow256(4) == TWO_32 && Pow256(8) == TWO_64;
    LeRoundTrip(x, 8);
  }

  lemma Four(d: seq<byte>, i: nat, x: nat)
    requires i + 4 <= |d| && d[i..i + 4] == LeBytes(x, 4) && x < TWO_32
    ensures Half(d, i) == x
  {
    assert Pow256(4) == TWO_32;
    LeRoundTrip(x, 4);
  }

  /** On a disk no larger than a card can be, a read looks at the bytes themselves. */
  lemma LookPlain(disk: seq<byte>, addr: nat, n: nat)
    requires addr + n <= |disk| <= CAPACITY && 0 < n
    ensures OnDisk(disk, addr, n) && Look(disk, addr, n) == disk[addr..addr + n]
  {}

  lemma SignatureBytes(disk: seq<byte>)
    requires 0x208 <= |disk| <= CAPACITY
    ensures Signed(disk) <==> disk[0x200..0x208] == EFI_PART
  {
    hide Look, LeBytes;
    var d := disk[0x200..0x208];
    LookPlain(disk, 0x200, 8);
    assert d[0..8] == d;
    LeOfValue(d);
    LeOfValue(EFI_PART);
    assert LeValue(EFI_PART) == SIGNATURE;
  }

  lemma WrittenHeader(disk: seq<byte>, lba: nat, size: nat, entries: seq<Entry>)
    requires Written(disk, lba, size, entries)
    ensures TableHeader(disk) == Header(lba, |entries|, size) && OnDisk(disk, HEADER, 16)
  {
    hide LeBytes, LeValue, Look, StoredAt;
    var d := disk[0x248..0x258];
    var x, y, z := LeBytes(lba, 8), LeBytes(|entries|, 4), LeBytes(size, 4);
    assert d == x + y + z && d[0..8] == x && d[8..12] == y && d[12..16] == z;
    LookPlain(disk, 0x248, 16);
    Eight(d, 0, lba);
    Four(d, 8, |entries|);
    Four(d, 12, size);
  }

  lemma PairFields(a: nat, b: nat)
    requires a < TWO_64 && b < TWO_64
    ensures Word(Pair(a, b), 0) == a && Word(Pair(a, b), 8) == b
  {
    hide LeBytes, LeValue;
    var d := Pair(a, b);
    assert d[0..8] == LeBytes(a, 8) && d[8..16] == LeBytes(b, 8);
    Eight(d, 0, a);
    Eight(d, 8, b);
  }

  lemma StoredFields(e: Entry)
    requires Storable(e)
    ensures GuidOf(Stored(e)[..16]) == e.kind && GuidOf(Stored(e)[16..32]) == e.id
    ensures RangeOf(Stored(e)[32..]) == Range(e.first, e.last)
  {
    hide Word, Pair;
    PairFields(e.kind.lo, e.kind.hi);
    PairFields(e.id.lo, e.id.hi);
    PairFields(e.first, e.last);
    assert Stored(e)[..16] == Pair(e.kind.lo, e.kind.hi) && Stored(e)[16..32] == Pair(e.id.lo, e.id.hi);
    assert Stored(e)[32..] == Pair(e.first, e.last);
  }

  lemma WrittenPlace(disk: seq<byte>, lba: nat, size: nat, entries: seq<Entry>, p: nat)
    requires Written(disk, lba, size, entries) && p < |entries|
    ensures StoredAt(disk, EntryAt(Header(lba, |entries|, size), p), entries[p]) && |disk| <= CAPACITY
  {
    hide LeBytes, Pair;
    assert StoredAt(disk, 512 * lba + p * size, entries[p]);
  }

  lemma WrittenEntry(disk: seq<byte>, lba: nat, size: nat, entries: seq<Entry>, p: nat)
    requires Written(disk, lba, size, entries) && p < |entries|
    ensures var h := Header(lba, |entries|, size);
            && OnDisk(disk, EntryAt(h, p), 16) && OnDisk(disk, U64(EntryAt(h, p) + 0x10), 16)
            && OnDisk(disk, U64(EntryAt(h, p) + 0x20), 16)
            && TypeGuid(disk, h, p) == entries[p].kind && PartGuid(disk, h, p) == entries[p].id
            && EntryRange(disk, h, p) == Range(entries[p].first, entries[p].last)
  {
    hide Written, EntryAt, Look, OnDisk, GuidOf, RangeOf, Stored;
    WrittenPlace(disk, lba, size, entries, p);
    var at := EntryAt(Header(lba, |entries|, size), p);
    var d := disk[at..at + 48];
    StoredFields(entries[p]);
    LookPlain(disk, at, 16);
    LookPlain(disk, at + 0x10, 16);
    LookPlain(disk, at + 0x20, 16);
    assert d[..16] == disk[at..at + 16] && d[16..32] == disk[at + 0x10..at + 0x20];
    assert d[32..] == disk[at + 0x20..at + 48];
  }

  lemma WrittenHits(disk: seq<byte>, lba: nat, size: nat, entries: seq<Entry>, w: Wanted)
    requires Written(disk, lba, size, entries)
    ensures TableHeader(disk) == Header(lba, |entries|, size) && TableOnDisk(disk)
    ensures forall p :: 0 <= p < |entries| ==> (Hit(disk, p, w) <==> Matching(entries[p], w))
  {
    hide Written, EntryAt, EntryRange, TypeGuid, PartGuid, OnDisk, TableHeader;
    WrittenHeader(disk, lba, size, entries);
    forall p | 0 <= p < |entries|
      ensures Hit(disk, p, w) <==> Matching(entries[p], w)
      ensures var h := TableHeader(disk);
              && OnDisk(disk, EntryAt(h, p), 16) && OnDisk(disk, U64(EntryAt(h, p) + 0x10), 16)
              && OnDisk(disk, U64(EntryAt(h, p) + 0x20), 16)
    {
      WrittenEntry(disk, lba, size, entries, p);
      WrittenPlace(disk, lba, size, entries, p);
    }
  }

  /** What the search is to answer about written entries; `range0` is the caller's range. */
  ghost predicate Found(entries: seq<Entry>, w: Wanted, range0: Range, idx: int, range: Range) {
    if idx >= 0 then LeastMatching(entries, w, idx) && range == Range(entries[idx].first, entries[idx].last)
    else
      && idx == -1 && NoneMatching(entries, w)
      && if entries == [] then range == range0
         else
           var top := (entries[0].first + w.maxLbas - 1) % TWO_64;
           range == Range(entries[0].first, if entries[0].last <= top then entries[0].last else top)
  }

  /** The answer in terms of what is read. */
  ghost predicate Answer(disk: seq<byte>, w: Wanted, range0: Range, idx: int, range: Range) {
    if idx >= 0 then FirstHit(disk, idx, w) && range == EntryRange(disk, TableHeader(disk), idx)
    else
      && idx == -1 && NoHit(disk, w)
      && range == if TableHeader(disk).count == 0 then range0 else Fallback(disk, w.maxLbas)
  }

  lemma AnswerFound(disk: seq<byte>, lba: nat, size: nat, entries: seq<Entry>,
                    w: Wanted, range0: Range, idx: int, range: Range)
    requires Written(disk, lba, size, entries)
    ensures Answer(disk, w, range0, idx, range) <==> Found(entries, w, range0, idx, range)
  {
    hide Written, EntryAt, EntryRange, TableHeader, Hit, Matching, TableOnDisk;
    WrittenHits(disk, lba, size, entries, w);
    if 0 <= idx < |entries| {
      WrittenEntry(disk, lba, size, entries, idx);
      assert forall q :: 0 <= q < idx ==> entries[..idx][q] == entries[q];
    }
    if entries != [] {
      WrittenEntry(disk, lba, size, entries, 0);
    }
  }

  /** What can be written can be read. */
  lemma TableReadable(disk: seq<byte>)
    requires HasTable(disk)
    ensures TableOnDisk(disk)
  {
    hide Written;
    var lba: nat, size: nat, entries :| Written(disk, lba, size, entries);
    WrittenHits(disk, lba, size, entries, Wanted(0, None, None));
  }

  // ----- The search

  /** `gpt_check_signature`: a failed read counts as no signature. */
  method CheckSignature(r: Reader, priv: nat) returns (found: bool)
    requires r.Valid() && priv == r.rom.priv
    modifies r`gp, r.sd
    ensures r.Valid() && r.gp == old(r.gp)
    ensures found ==> Signed(r.disk)
    ensures r.Dependable() && OnDisk(r.disk, 0x200, 8) ==> found == Signed(r.disk)
  {
    hide SdCard.Serves, SdCard.Prompt, CardAddress, PacketsOf, Degraded, Look, LeValue;
    var sig := new byte[8];
    var ret := r.Read(priv, sig, 0, 0x200, 8);
    found := ret == 0 && LeValue(sig[0..8]) == SIGNATURE;
    if ret == 0 {
      assert Look(r.disk, 0x200, 8)[0..8] == sig[0..8];
    }
  }

  method ReadSixteen(r: Reader, priv: nat, addr: nat) returns (ret: int, d: seq<byte>)
    requires r.Valid() && priv == r.rom.priv && addr < TWO_64
    modifies r`gp, r.sd
    ensures r.Valid() && r.gp == old(r.gp) && |d| == 16
    ensures ret == 0 ==> d == Look(r.disk, addr, 16)
    ensures r.Dependable() && OnDisk(r.disk, addr, 16) ==> ret == 0
  {
    hide SdCard.Serves, SdCard.Prompt, CardAddress, PacketsOf, Degraded, Look;
    var buf := new byte[16];
    ret := r.Read(priv, buf, 0, addr, 16);
    d := buf[0..16];
  }

  /** The part of the loop body of `gpt_find_partition` that reads GUIDs as needed. */
  method CheckGuids(r: Reader, priv: nat, h: Header, p: nat, w: Wanted) returns (ret: int, found: bool)
    requires r.Valid() && priv == r.rom.priv
    modifies r`gp, r.sd
    ensures r.Valid() && r.gp == old(r.gp)
    ensures ret == 0 ==> found == GuidHit(r.disk, h, p, w)
    ensures r.Dependable() && OnDisk(r.disk, EntryAt(h, p), 16) && OnDisk(r.disk, U64(EntryAt(h, p) + 0x10), 16) ==>
              ret == 0
  {
    hide SdCard.Serves, SdCard.Prompt, CardAddress, PacketsOf, Degraded, Look, LeValue, EntryAt, OnDisk, U64;
    ret, found := 0, false;
    var at := EntryAt(h, p);
    EntryAtBound(h, p);
    var d;
    if w.tguid.Some? {
      ret, d := ReadSixteen(r, priv, at);
      if ret != 0 { return; }
      if GuidOf(d) == w.tguid.value { return 0, true; }
    }
    if w.pguid.Some? {
      ret, d := ReadSixteen(r, priv, U64(at + 0x10));
      if ret != 0 { return; }
      if GuidOf(d) == w.pguid.value { return 0, true; }
    }
  }

  /** `gpt_find_partition`; the range comes in as the caller's and goes out as found. */
  method FindPartition(r: Reader, priv: nat, idx0: int, range0: Range, w: Wanted)
    returns (ret: int, idx: int, range: Range)
    requires r.Valid() && priv == r.rom.priv && w.maxLbas < TWO_64
    modifies r`gp, r.sd
    ensures r.Valid() && r.gp == old(r.gp)
    ensures ret != 0 ==> idx == idx0
    ensures ret == 0 ==> Answer(r.disk, w, range0, idx, range)
    ensures ret == 0 ==>
              forall lba: nat, size: nat, entries :: Written(r.disk, lba, size, entries) ==>
                Found(entries, w, range0, idx, range)
    ensures r.Dependable() && (TableOnDisk(r.disk) || HasTable(r.disk)) ==> ret == 0
  {
    hide SdCard.Serves, SdCard.Prompt, CardAddress, PacketsOf, Degraded, Look, LeValue, EntryAt, OnDisk, U64, GuidHit;
    hide HasTable, Written, Found;
    idx, range := idx0, range0;
    if HasTable(r.disk) { TableReadable(r.disk); }
    var d;
    ret, d := ReadSixteen(r, priv, HEADER);
    if ret != 0 { return; }
    var hf := HeaderOf(d);
    var p := 0;
    var dim := range0;
    while p < hf.count
      invariant r.Valid() && r.gp == old(r.gp) && ret == 0 && idx == idx0 && 0 <= p <= hf.count
      invariant forall q :: 0 <= q < p ==> !Hit(r.disk, q, w)
      invariant range == if p == 0 then range0 else Fallback(r.disk, w.maxLbas)
    {
      var at := EntryAt(hf, p);
      EntryAtBound(hf, p);
      ret, d := ReadSixteen(r, priv, U64(at + 0x20));
      if ret != 0 { return; }
      dim := RangeOf(d);
      if p == 0 {
        range := CutRange(dim, w.maxLbas);
      }
      if U64(dim.end - dim.begin) >= w.maxLbas {
        p := p + 1;
        continue;
      }
      var found;
      ret, found := CheckGuids(r, priv, hf, p, w);
      if ret != 0 { return; }
      if found { break; }
      p := p + 1;
    }
    idx := -1;
    if p != hf.count {
      idx := p;
      range := dim;
    }
    forall lba: nat, size: nat, entries | Written(r.disk, lba, size, entries)
      ensures Found(entries, w, range0, idx, range)
    {
      AnswerFound(r.disk, lba, size, entries, w, range0, idx, range);
    }
  }

  lemma EntryAtBound(h: Header, p: nat)
    ensures EntryAt(h, p) < TWO_64
  {}

  // ----- How much is copied

  /** The byte count of an inclusive block range, in 64-bit arithmetic. */
  function ImageLen(r: Range): nat {
    U64(0x200 * U64(r.end - r.begin + 1))
  }

  function ImageAddr(r: Range): nat {
    U64(0x200 * r.begin)
  }

  lemma ImageBounds(r: Range)
    ensures ImageLen(r) < TWO_64 && ImageAddr(r) < TWO_64
  {}

  lemma EntryRangeBound(disk: seq<byte>, h: Header, p: nat)
    ensures EntryRange(disk, h, p).begin < TWO_64 && EntryRange(disk, h, p).end < TWO_64
  {
    hide U64, EntryAt, Look;
    var d := Look(disk, U64(EntryAt(h, p) + 0x20), 16);
    assert Pow256(4) == 0x1_0000_0000;
    assert Pow256(8) == TWO_64;
    LeOfValue(d[0..8]);
    LeOfValue(d[8..16]);
  }

  /** A range that passed the size filter never asks for more, ordered or not. */
  lemma FittingImage(r: Range, maxLbas: nat)
    requires Fits(r, maxLbas) && maxLbas < TWO_64
    ensures ImageLen(r) <= 0x200 * maxLbas
  {}

  /** Without a table the range is everything up to the limit. */
  lemma RawImage(maxLbas: nat)
    requires maxLbas < TWO_64
    ensures ImageLen(Range(0, U64(maxLbas - 1))) <= 0x200 * maxLbas
  {}

  /** The condition under which the first entry, cut to `maxLbas`, stays within it: it is ordered,
      or adding the limit wraps around, or the wrapped length happens to be small. */
  predicate CutIsSafe(r: Range, maxLbas: nat) {
    if r.begin == maxLbas == 0 then (r.end + 1) % 0x80_0000_0000_0000 == 0 else
      || r.begin <= r.end + 1
      || r.begin + maxLbas > TWO_64
      || (r.begin - r.end - 1) % 0x80_0000_0000_0000 == 0
      || 0x80_0000_0000_0000 - (r.begin - r.end - 1) % 0x80_0000_0000_0000 <= maxLbas
  }

  lemma CutWrapped(r: Range, maxLbas: nat)
    requires r.begin < TWO_64 && r.end < TWO_64 && maxLbas < TWO_64 && r.begin + maxLbas > TWO_64
    ensures ImageLen(CutRange(r, maxLbas)) <= 0x200 * maxLbas
  {}

  lemma CutOrdered(r: Range, maxLbas: nat)
    requires r.begin <= r.end + 1 && r.end < TWO_64 && 0 < r.begin + maxLbas <= TWO_64
    ensures ImageLen(CutRange(r, maxLbas)) <= 0x200 * maxLbas
  {}

  lemma CutReversed(r: Range, maxLbas: nat)
    requires r.end + 1 < r.begin && r.begin + maxLbas <= TWO_64
    ensures ImageLen(CutRange(r, maxLbas)) <= 0x200 * maxLbas <==> CutIsSafe(r, maxLbas)
  {}

  lemma CutToNothing(r: Range)
    requires r.begin == 0 && r.end < TWO_64
    ensures ImageLen(CutRange(r, 0)) == 0 <==> CutIsSafe(r, 0)
  {}

  /** The fallback copies at most the limit exactly when the first entry is safe to cut. */
  lemma CutImage(r: Range, maxLbas: nat)
    requires r.begin < TWO_64 && r.end < TWO_64 && maxLbas < TWO_64
    ensures ImageLen(CutRange(r, maxLbas)) <= 0x200 * maxLbas <==> CutIsSafe(r, maxLbas)
  {
    hide ImageLen, CutRange;
    if r.begin == maxLbas == 0 {
      CutToNothing(r);
    } else if r.begin + maxLbas > TWO_64 {
      CutWrapped(r, maxLbas);
    } else if r.begin <= r.end + 1 {
      CutOrdered(r, maxLbas);
    } else {
      CutReversed(r, maxLbas);
    }
  }

  /** A reversed first entry makes the boot ROM ask for nearly the whole 64-bit range. */
  lemma CutCanOverrun()
    ensures !CutIsSafe(Range(100, 50), 96)
    ensures ImageLen(CutRange(Range(100, 50), 96)) > 0x200 * 96
  {}
}
