/** From the SD card to the firmware: the boot ROM's loader (sw/lib/gpt.c:73-90), the hand-over
    through the scratch registers and the wake-up barrier, and the zero-stage loader
    (sw/boot/zsl.c) with its two copies into DRAM. */
module Boot {
  import opened Common
  import opened Bits
  import opened SpiSdcard
  import opened GptTable
  import opened Gpt
  import SdCard
  import SmpBarrier

  const SPM_MAX_LBAS: nat := 2 * 48
  const DTB_MAX_LBAS: nat := 64
  const FW_MAX_LBAS: nat := 8192
  const SPM_BASE: nat := 0x1000_0000
  const ZSL_FW: nat := 0x8000_0000
  const ZSL_DTB: nat := 0x8080_0000

  const ZSL_TYPE: Guid := Guid(0x4CE4_FD95_0269_B26A, 0x622C_4101_1494_CF98)
  const DTB_TYPE: Guid := Guid(0x42DE_2AEF_BA44_2F61, 0x9DCB_3A5D_D7E4_3392)
  const FW_TYPE: Guid := Guid(0x4B0D_3F5B_99EC_86DA, 0x59F8_A5CF_BAC4_4B8F)

  /** The documented GUIDs 0269B26A-FD95-4CE4-98CF-941401412C62, BA442F61-2AEF-42DE-9233-E4D75D3ACB9D and
      99EC86DA-3F5B-4B0D-8F4B-C4BACFA5F859 as they are stored: three fields in little-endian order and eight bytes. */
  lemma DocumentedTypes()
    ensures Pair(ZSL_TYPE.lo, ZSL_TYPE.hi) == [0x6A, 0xB2, 0x69, 0x02, 0x95, 0xFD, 0xE4, 0x4C]
                                              + [0x98, 0xCF, 0x94, 0x14, 0x01, 0x41, 0x2C, 0x62]
    ensures Pair(DTB_TYPE.lo, DTB_TYPE.hi) == [0x61, 0x2F, 0x44, 0xBA, 0xEF, 0x2A, 0xDE, 0x42]
                                              + [0x92, 0x33, 0xE4, 0xD7, 0x5D, 0x3A, 0xCB, 0x9D]
    ensures Pair(FW_TYPE.lo, FW_TYPE.hi) == [0xDA, 0x86, 0xEC, 0x99, 0x5B, 0x3F, 0x0D, 0x4B]
                                            + [0x8F, 0x4B, 0xC4, 0xBA, 0xCF, 0xA5, 0xF8, 0x59]
  {
    hide LeBytes, LeValue;
    EightBytes(0x6A, 0xB2, 0x69, 0x02, 0x95, 0xFD, 0xE4, 0x4C);
    EightBytes(0x98, 0xCF, 0x94, 0x14, 0x01, 0x41, 0x2C, 0x62);
    EightBytes(0x61, 0x2F, 0x44, 0xBA, 0xEF, 0x2A, 0xDE, 0x42);
    EightBytes(0x92, 0x33, 0xE4, 0xD7, 0x5D, 0x3A, 0xCB, 0x9D);
    EightBytes(0xDA, 0x86, 0xEC, 0x99, 0x5B, 0x3F, 0x0D, 0x4B);
    EightBytes(0x8F, 0x4B, 0xC4, 0xBA, 0xCF, 0xA5, 0xF8, 0x59);
  }

  lemma EightBytes(a: byte, b: byte, c: byte, d: byte, e: byte, f: byte, g: byte, h: byte)
    ensures LeBytes(LowFour(a, b, c, d, LowFour(e, f, g, h, 0)), 8) == [a, b, c, d, e, f, g, h]
  {
    assert LeBytes(0, 0) == [];
    hide LeBytes, LowFour;
    LeFour(e, f, g, h, 0, 0);
    LeFour(a, b, c, d, LowFour(e, f, g, h, 0), 4);
    assert [a] + ([b] + ([c] + ([d] + ([e] + ([f] + ([g] + ([h] + []))))))) == [a, b, c, d, e, f, g, h];
  }

  // ----- The registers that survive between the stages

  /** A pointer with its lowest bit set as a marker, cut to a 32-bit register. */
  function Tag(p: nat): nat {
    SmpBarrier.Low(if p % 2 == 0 then p + 1 else p)
  }

  function Untag(v: nat): nat {
    v - v % 2
  }

  /** The marker always arrives; the pointer does exactly if it is even and has 32 bits. */
  lemma PointerSurvives(p: nat)
    ensures Tag(p) % 2 == 1
    ensures Untag(Tag(p)) == p <==> p % 2 == 0 && p < TWO_32
  {
    var q := if p % 2 == 0 then p + 1 else p;
    assert q == q / TWO_32 * TWO_32 + q % TWO_32;
  }

  // ----- Boot ROM

  function RawRange(maxLbas: nat): Range {
    Range(0, U64(maxLbas - 1))
  }

  /** The range of the first entry that fits and matches. */
  ghost predicate IsFirst(disk: seq<byte>, w: Wanted, range: Range) {
    exists p :: FirstHit(disk, p, w) && range == EntryRange(disk, TableHeader(disk), p)
  }

  /** What the boot ROM is to load: the first match, else the cut first partition, else raw blocks. */
  ghost predicate Chosen(disk: seq<byte>, w: Wanted, range: Range) {
    if !Signed(disk) then range == RawRange(w.maxLbas)
    else if NoHit(disk, w) then
      range == if TableHeader(disk).count == 0 then RawRange(w.maxLbas) else Fallback(disk, w.maxLbas)
    else IsFirst(disk, w, range)
  }

  /** How loading ended; `Overrun` stands for a length that does not fit the code buffer. */
  datatype Loaded = Failed(code: int) | Overrun | Handed

  /** The whole image lies on the disk. */
  predicate ImageOnDisk(disk: seq<byte>, range: Range) {
    ImageLen(range) == 0 || OnDisk(disk, ImageAddr(range), ImageLen(range))
  }

  /** The bytes of a partition. */
  function Image(disk: seq<byte>, range: Range): (d: seq<byte>)
    ensures |d| == ImageLen(range)
  {
    Look(disk, ImageAddr(range), ImageLen(range))
  }

  /** An ordered range of sectors of a disk that is no larger than a card can be. */
  predicate Plain(disk: seq<byte>, range: Range) {
    range.begin <= range.end && 0x200 * (range.end + 1) <= |disk| <= CAPACITY
  }

  /** `part` starts with these sectors of the disk. */
  predicate HoldsSectors(disk: seq<byte>, range: Range, part: seq<byte>)
    requires Plain(disk, range)
  {
    disk[0x200 * range.begin..0x200 * (range.end + 1)] <= part
  }

  /** For such a range, the image that the loaders compute with wrapping arithmetic is the partition. */
  lemma PlainImage(disk: seq<byte>, range: Range)
    requires Plain(disk, range)
    ensures Image(disk, range) == disk[0x200 * range.begin..0x200 * (range.end + 1)] && ImageOnDisk(disk, range)
  {}

  /** Cutting the first entry to `maxLbas` blocks leaves it within them. */
  predicate FirstIsSafe(disk: seq<byte>, maxLbas: nat) {
    CutIsSafe(EntryRange(disk, TableHeader(disk), 0), maxLbas)
  }

  /** Signature and table, where there is one, can be read. */
  ghost predicate Readable(disk: seq<byte>) {
    OnDisk(disk, 0x200, 8) && (Signed(disk) ==> TableOnDisk(disk))
  }

  /** The loader falls back on the first entry: there is a table, and nothing in it fits and matches. */
  ghost predicate FallsBack(disk: seq<byte>, w: Wanted) {
    Signed(disk) && NoHit(disk, w) && TableHeader(disk).count > 0
  }

  /** Whatever is chosen stays within the limit, except for a fallback on an entry that is not safe
      to cut: a match passed the size filter, and the raw range is the limit itself. */
  lemma ChosenBound(disk: seq<byte>, w: Wanted, range: Range)
    requires w.maxLbas < TWO_64
    requires Chosen(disk, w, range) || range == RawRange(w.maxLbas)
    ensures ImageLen(range) <= 0x200 * w.maxLbas
            || (FallsBack(disk, w) && range == Fallback(disk, w.maxLbas) && !FirstIsSafe(disk, w.maxLbas))
    ensures Chosen(disk, w, range) ==>
              (ImageLen(range) > 0x200 * w.maxLbas <==> FallsBack(disk, w) && !FirstIsSafe(disk, w.maxLbas))
  {
    hide ImageLen, Look, CutIsSafe, Signed;
    RawImage(w.maxLbas);
    if FallsBack(disk, w) {
      EntryRangeBound(disk, TableHeader(disk), 0);
      CutImage(EntryRange(disk, TableHeader(disk), 0), w.maxLbas);
    } else if range != RawRange(w.maxLbas) {
      var p :| FirstHit(disk, p, w) && range == EntryRange(disk, TableHeader(disk), p);
      FittingImage(range, w.maxLbas);
    }
  }

  // ----- Which sectors these are

  /** The `n` sectors from `b` on are all on the disk, and that is no larger than a card can be. */
  predicate Sectors(disk: seq<byte>, b: nat, n: nat) {
    512 * (b + n) <= |disk| <= 0x200_0000_0000
  }

  /** `part` starts with them. */
  predicate StartsWith(part: seq<byte>, disk: seq<byte>, b: nat, n: nat)
    requires Sectors(disk, b, n)
  {
    512 * n <= |part| && part[..512 * n] == disk[512 * b..512 * (b + n)]
  }

  /** The first entry of a written table that matches has these sectors. */
  ghost predicate Partition(disk: seq<byte>, w: Wanted, b: nat, n: nat) {
    && Sectors(disk, b, n) && 0 < n
    && exists lba: nat, size: nat, entries: seq<Entry>, p: nat ::
         Written(disk, lba, size, entries) && LeastMatching(entries, w, p)
         && entries[p].first == b && entries[p].last == b + n - 1
  }

  /** The fallback of a table without a match: the first partition, or as much of it as may be loaded. */
  ghost predicate FirstPartition(disk: seq<byte>, w: Wanted, b: nat, n: nat) {
    && Sectors(disk, b, n)
    && exists lba: nat, size: nat, entries: seq<Entry> ::
         Written(disk, lba, size, entries) && NoneMatching(entries, w) && entries != []
         && entries[0].first == b <= entries[0].last && 0 < b + w.maxLbas <= TWO_64
         && n == if entries[0].last + 1 - b <= w.maxLbas then entries[0].last + 1 - b else w.maxLbas
  }

  /** Without a signature, or with an empty table, the disk itself from its first sector on. */
  ghost predicate Raw(disk: seq<byte>, w: Wanted, b: nat, n: nat) {
    && 0x208 <= |disk| <= CAPACITY && b == 0 && n == w.maxLbas
    && (disk[0x200..0x208] != EFI_PART || exists lba: nat, size: nat :: Written(disk, lba, size, []))
  }

  /** The sectors that the boot ROM is to load. */
  ghost predicate Due(disk: seq<byte>, w: Wanted, b: nat, n: nat) {
    && 0x208 <= |disk| && Sectors(disk, b, n)
    && (Raw(disk, w, b, n)
        || (disk[0x200..0x208] == EFI_PART && (Partition(disk, w, b, n) || FirstPartition(disk, w, b, n))))
  }

  /** The wrapping arithmetic of the loaders on a range that names sectors of the disk. */
  lemma SectorImage(disk: seq<byte>, b: nat, n: nat)
    requires Sectors(disk, b, n)
    ensures var range := Range(b, U64(b + n - 1));
            ImageOnDisk(disk, range) && Image(disk, range) == disk[512 * b..512 * (b + n)]
  {}

  /** An image of these sectors is what a buffer that it was copied to starts with. */
  lemma SectorsCopied(disk: seq<byte>, b: nat, n: nat, part: seq<byte>)
    requires Sectors(disk, b, n) && Image(disk, Range(b, U64(b + n - 1))) <= part
    ensures StartsWith(part, disk, b, n)
  {
    SectorImage(disk, b, n);
    hide Image;
  }

  lemma LeastFound(disk: seq<byte>, lba: nat, size: nat, entries: seq<Entry>, w: Wanted, p: nat)
    requires Written(disk, lba, size, entries) && LeastMatching(entries, w, p)
    ensures TableOnDisk(disk) && FirstHit(disk, p, w)
    ensures EntryRange(disk, TableHeader(disk), p) == Range(entries[p].first, entries[p].last)
  {
    hide Written, FirstHit, EntryRange, TableHeader, TableOnDisk, LeastMatching, NoneMatching, NoHit;
    LeastInside(entries, w, p);
    TableReadable(disk);
    AnswerFound(disk, lba, size, entries, w, Range(0, 0), p, Range(entries[p].first, entries[p].last));
  }

  lemma LeastInside(entries: seq<Entry>, w: Wanted, p: nat)
    requires LeastMatching(entries, w, p)
    ensures p < |entries|
  {}

  lemma OnlyFirst(disk: seq<byte>, w: Wanted, p: nat, range: Range)
    requires FirstHit(disk, p, w) && IsFirst(disk, w, range)
    ensures range == EntryRange(disk, TableHeader(disk), p)
  {
    hide TableHeader, EntryRange, Hit;
  }

  /** What matches in a written table is what the search finds. */
  lemma PartitionFound(disk: seq<byte>, w: Wanted, b: nat, n: nat)
    requires Partition(disk, w, b, n)
    ensures TableOnDisk(disk) && !NoHit(disk, w)
    ensures forall range :: IsFirst(disk, w, range) ==> range == Range(b, U64(b + n - 1))
  {
    hide Written, NoneMatching, EntryRange, TableHeader, Hit, Matching, TableOnDisk, IsFirst;
    var lba: nat, size: nat, entries: seq<Entry>, p: nat :|
      Written(disk, lba, size, entries) && LeastMatching(entries, w, p)
      && entries[p].first == b && entries[p].last == b + n - 1;
    LeastFound(disk, lba, size, entries, w, p);
    forall range | IsFirst(disk, w, range) ensures range == Range(b, U64(b + n - 1)) {
      OnlyFirst(disk, w, p, range);
    }
  }

  lemma PartitionRead(disk: seq<byte>, w: Wanted, b: nat, n: nat)
    requires Partition(disk, w, b, n)
    ensures Sectors(disk, b, n) && TableOnDisk(disk) && !NoHit(disk, w)
  {
    PartitionFound(disk, w, b, n);
  }

  lemma FirstPartitionFound(disk: seq<byte>, w: Wanted, b: nat, n: nat)
    requires FirstPartition(disk, w, b, n)
    ensures TableOnDisk(disk) && NoHit(disk, w) && TableHeader(disk).count > 0
    ensures Fallback(disk, w.maxLbas) == Range(b, U64(b + n - 1)) && FirstIsSafe(disk, w.maxLbas)
  {
    hide Written, EntryRange, TableHeader, Hit, Matching, TableOnDisk;
    var lba: nat, size: nat, entries: seq<Entry> :|
      Written(disk, lba, size, entries) && NoneMatching(entries, w) && entries != []
      && entries[0].first == b <= entries[0].last && 0 < b + w.maxLbas <= TWO_64
      && n == if entries[0].last + 1 - b <= w.maxLbas then entries[0].last + 1 - b else w.maxLbas;
    WrittenHits(disk, lba, size, entries, w);
    WrittenEntry(disk, lba, size, entries, 0);
  }

  lemma RawFound(disk: seq<byte>, w: Wanted, b: nat, n: nat)
    requires Raw(disk, w, b, n)
    ensures RawRange(w.maxLbas) == Range(b, U64(b + n - 1))
    ensures Signed(disk) ==> TableOnDisk(disk) && NoHit(disk, w) && TableHeader(disk).count == 0
  {
    hide Written, TableHeader, TableOnDisk, Signed;
    SignatureBytes(disk);
    if Signed(disk) {
      var lba: nat, size: nat :| Written(disk, lba, size, []);
      WrittenHits(disk, lba, size, [], w);
    }
  }

  lemma DueSafe(disk: seq<byte>, w: Wanted, b: nat, n: nat)
    requires Due(disk, w, b, n)
    ensures Sectors(disk, b, n) && Readable(disk) && (FallsBack(disk, w) ==> FirstIsSafe(disk, w.maxLbas))
  {
    hide Raw, Partition, FirstPartition, Signed, TableOnDisk, NoHit, FirstIsSafe, TableHeader, Fallback;
    SignatureBytes(disk);
    LookPlain(disk, 0x200, 8);
    if Raw(disk, w, b, n) {
      RawFound(disk, w, b, n);
    } else if Partition(disk, w, b, n) {
      PartitionFound(disk, w, b, n);
    } else {
      FirstPartitionFound(disk, w, b, n);
    }
  }

  /** What is due is what is chosen. */
  lemma DueChosen(disk: seq<byte>, w: Wanted, b: nat, n: nat, range: Range)
    requires Due(disk, w, b, n) && Chosen(disk, w, range)
    ensures range == Range(b, U64(b + n - 1)) && ImageOnDisk(disk, range)
  {
    hide Image, ImageOnDisk, Raw, Partition, FirstPartition, Signed, TableOnDisk, NoHit, IsFirst, FirstIsSafe;
    hide TableHeader, Fallback, RawRange;
    SignatureBytes(disk);
    SectorImage(disk, b, n);
    if Raw(disk, w, b, n) {
      RawFound(disk, w, b, n);
    } else if Partition(disk, w, b, n) {
      PartitionFound(disk, w, b, n);
    } else {
      FirstPartitionFound(disk, w, b, n);
    }
  }

  /** The scratch words as the boot ROM leaves them for the next stage. */
  function HandOver(words: seq<nat>, rom: Rom): (s: seq<nat>)
    requires |words| == 16
    ensures |s| == 16
  {
    words[0 := Tag(rom.read)][1 := SmpBarrier.Low(rom.priv)][3 := SmpBarrier.Low(rom.gp)]
  }

  /** The first half of `gpt_boot_part_else_raw`: which blocks to load. A failed read of the signature
      counts as none, and then the raw range is taken. */
  method ChooseRange(r: Reader, priv: nat, w: Wanted) returns (ret: int, range: Range)
    requires r.Valid() && priv == r.rom.priv && w.maxLbas < TWO_64
    modifies r`gp, r.sd
    ensures r.Valid() && r.gp == old(r.gp)
    ensures ret == 0 ==> Chosen(r.disk, w, range) || range == RawRange(w.maxLbas)
    ensures r.Dependable() && Readable(r.disk) ==> ret == 0 && Chosen(r.disk, w, range)
  {
    hide SdCard.Serves, SdCard.Prompt, CardAddress, PacketsOf, Degraded, Look, U64;
    ret, range := 0, RawRange(w.maxLbas);
    var found := CheckSignature(r, priv);
    if found {
      var idx;
      ret, idx, range := FindPartition(r, priv, 0, range, w);
    }
  }

  /** The copy of `gpt_boot_part_else_raw`. A length beyond the code buffer, which only a fallback on
      an unsafe first entry can cause, is reported instead of written. */
  method CopyCode(r: Reader, priv: nat, codeBuf: array<byte>, w: Wanted) returns (out: Loaded, range: Range)
    requires r.Valid() && priv == r.rom.priv && 0x200 * w.maxLbas <= codeBuf.Length < TWO_63
    modifies r`gp, r.sd, codeBuf
    ensures r.Valid() && r.gp == old(r.gp)
    ensures out != Handed || (Image(r.disk, range) <= codeBuf[..] && ImageOnDisk(r.disk, range))
    ensures out.Failed? || Chosen(r.disk, w, range) || range == RawRange(w.maxLbas)
    ensures (FallsBack(r.disk, w) ==> FirstIsSafe(r.disk, w.maxLbas)) ==>
              out != Overrun && Untouched(old(codeBuf[..]), codeBuf[..], 0, 0x200 * w.maxLbas)
    ensures r.Dependable() && Readable(r.disk) ==>
              && Chosen(r.disk, w, range)
              && (codeBuf.Length == 0x200 * w.maxLbas ==>
                    (out == Overrun <==> FallsBack(r.disk, w) && !FirstIsSafe(r.disk, w.maxLbas)))
              && ((FallsBack(r.disk, w) ==> FirstIsSafe(r.disk, w.maxLbas)) && ImageOnDisk(r.disk, range) ==>
                    out == Handed)
  {
    hide SdCard.Serves, SdCard.Prompt, CardAddress, PacketsOf, Degraded, Look, ImageLen, ImageAddr, CutIsSafe;
    hide FirstIsSafe, FallsBack, Chosen, Readable, U64;
    var ret;
    ret, range := ChooseRange(r, priv, w);
    if ret != 0 { return Failed(ret), range; }
    ImageBounds(range);
    ChosenBound(r.disk, w, range);
    if ImageLen(range) > codeBuf.Length { return Overrun, range; }
    ret := r.Read(priv, codeBuf, 0, ImageAddr(range), ImageLen(range));
    if ret != 0 { return Failed(ret), range; }
    assert codeBuf[..ImageLen(range)] == codeBuf[0..0 + ImageLen(range)];
    out := Handed;
  }

  /** `gpt_boot_part_else_raw` up to its call of boot_next_stage. With a dependable reader, the sectors
      that are due arrive in the buffer. */
  method GptBootPartElseRaw(r: Reader, priv: nat, codeBuf: array<byte>, w: Wanted, scratch: array<nat>)
    returns (out: Loaded, range: Range)
    requires r.Valid() && !r.relocated && priv == r.rom.priv && scratch.Length == 16
    requires 0x200 * w.maxLbas <= codeBuf.Length < TWO_63
    modifies r`gp, r.sd, codeBuf, scratch
    ensures r.Valid() && r.gp == old(r.gp)
    ensures scratch[..] == if out == Handed then HandOver(old(scratch[..]), r.rom) else old(scratch[..])
    ensures out != Handed || (Image(r.disk, range) <= codeBuf[..] && ImageOnDisk(r.disk, range))
    ensures out.Failed? || Chosen(r.disk, w, range) || range == RawRange(w.maxLbas)
    ensures (FallsBack(r.disk, w) ==> FirstIsSafe(r.disk, w.maxLbas)) ==>
              out != Overrun && Untouched(old(codeBuf[..]), codeBuf[..], 0, 0x200 * w.maxLbas)
    ensures r.Dependable() && Readable(r.disk) ==>
              && Chosen(r.disk, w, range)
              && (codeBuf.Length == 0x200 * w.maxLbas ==>
                    (out == Overrun <==> FallsBack(r.disk, w) && !FirstIsSafe(r.disk, w.maxLbas)))
              && ((FallsBack(r.disk, w) ==> FirstIsSafe(r.disk, w.maxLbas)) && ImageOnDisk(r.disk, range) ==>
                    out == Handed)
    ensures r.Dependable() ==>
              forall b: nat, n: nat :: Due(r.disk, w, b, n) ==> out == Handed && StartsWith(codeBuf[..], r.disk, b, n)
  {
    hide Image, ImageOnDisk, FirstIsSafe, FallsBack, Chosen, Readable, Due, Sectors, StartsWith, SmpBarrier.Low;
    hide SdCard.Serves, SdCard.Prompt, CardAddress, PacketsOf, Degraded;
    out, range := CopyCode(r, priv, codeBuf, w);
    ghost var code := codeBuf[..];
    if out == Handed {
      scratch[0] := Tag(r.rom.read);
      scratch[1] := SmpBarrier.Low(priv);
      var gp := r.Gprw(0);
      scratch[3] := SmpBarrier.Low(gp);
    }
    assert codeBuf[..] == code;
    if r.Dependable() {
      forall b: nat, n: nat | Due(r.disk, w, b, n)
        ensures Sectors(r.disk, b, n) && out == Handed && StartsWith(codeBuf[..], r.disk, b, n)
      {
        DueSafe(r.disk, w, b, n);
        DueChosen(r.disk, w, b, n, range);
        SectorsCopied(r.disk, b, n, codeBuf[..]);
      }
    }
  }

  // ----- The zero-stage loader

  /** A copy into DRAM and what its read returned, which the loader does not look at. */
  datatype Copy = Skipped | Copied(range: Range, ret: int)

  /** The copy that `LoadPart` makes: the first match, and in DRAM exactly its bytes if the read succeeded. */
  ghost predicate CopyIn(disk: seq<byte>, w: Wanted, copy: Copy, part: seq<byte>) {
    && copy.Copied? && IsFirst(disk, w, copy.range)
    && (copy.ret == 0 ==>
          && Image(disk, copy.range) <= part && ImageOnDisk(disk, copy.range)
          && (Plain(disk, copy.range) ==> HoldsSectors(disk, copy.range, part)))
  }

  /** Such a copy of a partition has all of its sectors. */
  lemma PartitionCopied(disk: seq<byte>, w: Wanted, b: nat, n: nat, copy: Copy, part: seq<byte>)
    requires Partition(disk, w, b, n) && CopyIn(disk, w, copy, part)
    ensures ImageOnDisk(disk, copy.range) && (copy.ret == 0 ==> StartsWith(part, disk, b, n))
  {
    hide Image, ImageOnDisk, IsFirst, Plain, HoldsSectors, TableOnDisk, NoHit;
    PartitionFound(disk, w, b, n);
    SectorImage(disk, b, n);
    if copy.ret == 0 {
      SectorsCopied(disk, b, n, part);
    }
  }

  function ByType(g: Guid, maxLbas: nat): Wanted {
    Wanted(maxLbas, Some(g), None)
  }

  /** `load_part_or_spin`; `Skipped` is its endless loop. */
  method LoadPart(r: Reader, priv: nat, w: Wanted, dram: array<byte>, at: nat) returns (copy: Copy)
    requires r.Valid() && priv == r.rom.priv && at + 0x200 * w.maxLbas <= dram.Length < TWO_63
    modifies r`gp, r.sd, dram
    ensures r.Valid() && r.gp == old(r.gp)
    ensures Untouched(old(dram[..]), dram[..], at, 0x200 * w.maxLbas)
    ensures copy.Copied? ==> CopyIn(r.disk, w, copy, dram[at..])
    ensures copy == Skipped ==> dram[..] == old(dram[..])
    ensures r.Dependable() && TableOnDisk(r.disk) ==>
              && (copy == Skipped <==> NoHit(r.disk, w))
              && (copy.Copied? ==> (copy.ret == 0 <==> ImageOnDisk(r.disk, copy.range)))
  {
    hide SdCard.Serves, SdCard.Prompt, CardAddress, PacketsOf, Degraded, Look, ImageLen, ImageAddr, Fits;
    var ret, idx, range := FindPartition(r, priv, -1, Range(0, 0), w);
    if ret != 0 || idx < 0 { return Skipped; }
    ImageBounds(range);
    FittingImage(range, w.maxLbas);
    ret := r.Read(priv, dram, at, ImageAddr(range), ImageLen(range));
    copy := Copied(range, ret);
    SliceFront(dram[..], at, ImageLen(range));
    if Plain(r.disk, range) {
      PlainImage(r.disk, range);
    }
    assert dram[at..] == dram[..][at..] && dram[at..at + ImageLen(range)] == dram[..][at..at + ImageLen(range)];
  }

  lemma SliceFront(s: seq<byte>, at: nat, n: nat)
    requires at + n <= |s|
    ensures s[at..at + n] <= s[at..]
  {
    assert s[at..][..n] == s[at..at + n];
  }

  /** How the loader ends: spinning, or in the payload with these arguments. */
  datatype Launch = Spin | Jump(entry: nat, a0: nat, a1: nat, a2: nat)

  const ZSL_WANTED: Wanted := ByType(ZSL_TYPE, SPM_MAX_LBAS)
  const DTB_AT: nat := ZSL_DTB - ZSL_FW
  const DTB_WANTED: Wanted := ByType(DTB_TYPE, DTB_MAX_LBAS)
  const FW_WANTED: Wanted := ByType(FW_TYPE, FW_MAX_LBAS)

  predicate InWindow(i: nat) {
    i < 0x40_0000 || 0x80_0000 <= i < 0x80_8000
  }

  /** Nothing in DRAM changed but the two windows the loader copies to. */
  predicate OnlyWindows(before: seq<byte>, now: seq<byte>) {
    && |before| == |now|
    && forall i :: 0 <= i < |now| && !InWindow(i) ==> now[i] == before[i]
  }

  /** The loading part of the zero-stage loader's `main`, with its own global pointer `zslGp`; DRAM
      starts at 0x80000000. With the marker set, the three pointers must be the ROM's. */
  method ZslMain(r: Reader, zslGp: nat, scratch: seq<nat>, dram: array<byte>)
    returns (launch: Launch, dtb: Copy, fw: Copy)
    requires r.Valid() && |scratch| == 16 && zslGp != 0
    requires scratch[0] % 2 == 1 ==>
               Untag(scratch[0]) == r.rom.read && scratch[1] == r.rom.priv && scratch[3] == r.rom.gp != 0
    requires DTB_AT + 0x200 * DTB_MAX_LBAS <= dram.Length < TWO_63
    modifies r, r.sd, dram
    ensures launch == Spin || launch == Jump(ZSL_FW, 0, ZSL_DTB, 0)
    ensures scratch[0] % 2 == 1 ==>
              r.relocated && r.rread == Untag(scratch[0]) && r.rgp == scratch[3] && r.gp == zslGp
    ensures OnlyWindows(old(dram[..]), dram[..])
    ensures scratch[0] % 2 == 0 ==> launch.Jump? && dram[..] == old(dram[..])
    ensures scratch[0] % 2 == 1 && launch.Jump? ==>
              && CopyIn(r.disk, FW_WANTED, fw, dram[..])
              && CopyIn(r.disk, DTB_WANTED, dtb, dram[DTB_AT..])
    ensures scratch[0] % 2 == 1 && old(r.Dependable()) && TableOnDisk(r.disk) ==>
              && (launch.Jump? <==> !NoHit(r.disk, FW_WANTED) && !NoHit(r.disk, DTB_WANTED))
              && (launch.Jump? ==> (fw.ret == 0 <==> ImageOnDisk(r.disk, fw.range)))
              && (launch.Jump? ==> (dtb.ret == 0 <==> ImageOnDisk(r.disk, dtb.range)))
    ensures scratch[0] % 2 == 1 && old(r.Dependable()) ==>
              forall b: nat, n: nat, b': nat, n': nat ::
                Partition(r.disk, FW_WANTED, b, n) && Partition(r.disk, DTB_WANTED, b', n') ==>
                  launch.Jump? && StartsWith(dram[..], r.disk, b, n) && StartsWith(dram[DTB_AT..], r.disk, b', n')
  {
    hide *;
    r.DiskSized();
    ghost var dependable := r.Dependable();
    launch, dtb, fw := CopyParts(r, zslGp, scratch, dram);
    if scratch[0] % 2 == 1 && dependable {
      PartsCopied(r.disk, launch, fw, dtb, dram[..], dram[DTB_AT..]);
    }
  }

  lemma PartsCopied(disk: seq<byte>, launch: Launch, fw: Copy, dtb: Copy, at: seq<byte>, at': seq<byte>)
    requires launch.Jump? ==> CopyIn(disk, FW_WANTED, fw, at) && CopyIn(disk, DTB_WANTED, dtb, at')
    requires TableOnDisk(disk) ==>
               && (launch.Jump? <==> !NoHit(disk, FW_WANTED) && !NoHit(disk, DTB_WANTED))
               && (launch.Jump? ==> (fw.ret == 0 <==> ImageOnDisk(disk, fw.range)))
               && (launch.Jump? ==> (dtb.ret == 0 <==> ImageOnDisk(disk, dtb.range)))
    ensures forall b: nat, n: nat, b': nat, n': nat ::
              Partition(disk, FW_WANTED, b, n) && Partition(disk, DTB_WANTED, b', n') ==>
                launch.Jump? && StartsWith(at, disk, b, n) && StartsWith(at', disk, b', n')
  {
    hide CopyIn, NoHit, TableOnDisk, ImageOnDisk, Partition, Sectors, StartsWith;
    forall b: nat, n: nat, b': nat, n': nat | Partition(disk, FW_WANTED, b, n) && Partition(disk, DTB_WANTED, b', n')
      ensures Sectors(disk, b, n) && Sectors(disk, b', n') && launch.Jump?
      ensures StartsWith(at, disk, b, n) && StartsWith(at', disk, b', n')
    {
      PartitionRead(disk, FW_WANTED, b, n);
      PartitionRead(disk, DTB_WANTED, b', n');
      PartitionCopied(disk, FW_WANTED, b, n, fw, at);
      PartitionCopied(disk, DTB_WANTED, b', n', dtb, at');
    }
  }

  /** The two copies, unless the loader was started without the marker. */
  method CopyParts(r: Reader, zslGp: nat, scratch: seq<nat>, dram: array<byte>)
    returns (launch: Launch, dtb: Copy, fw: Copy)
    requires r.Valid() && |scratch| == 16 && zslGp != 0
    requires scratch[0] % 2 == 1 ==>
               Untag(scratch[0]) == r.rom.read && scratch[1] == r.rom.priv && scratch[3] == r.rom.gp != 0
    requires DTB_AT + 0x200 * DTB_MAX_LBAS <= dram.Length < TWO_63
    modifies r, r.sd, dram
    ensures launch == Spin || launch == Jump(ZSL_FW, 0, ZSL_DTB, 0)
    ensures scratch[0] % 2 == 1 ==>
              r.relocated && r.rread == Untag(scratch[0]) && r.rgp == scratch[3] && r.gp == zslGp
    ensures OnlyWindows(old(dram[..]), dram[..])
    ensures scratch[0] % 2 == 0 ==> launch.Jump? && dram[..] == old(dram[..])
    ensures scratch[0] % 2 == 1 && launch.Jump? ==>
              && CopyIn(r.disk, FW_WANTED, fw, dram[..])
              && CopyIn(r.disk, DTB_WANTED, dtb, dram[DTB_AT..])
    ensures scratch[0] % 2 == 1 && old(r.Dependable()) && TableOnDisk(r.disk) ==>
              && (launch.Jump? <==> !NoHit(r.disk, FW_WANTED) && !NoHit(r.disk, DTB_WANTED))
              && (launch.Jump? ==> (fw.ret == 0 <==> ImageOnDisk(r.disk, fw.range)))
              && (launch.Jump? ==> (dtb.ret == 0 <==> ImageOnDisk(r.disk, dtb.range)))
  {
    hide SdCard.Serves, SdCard.Prompt, CardAddress, PacketsOf, Degraded, Look, ImageLen, ImageAddr, NoHit, TableOnDisk;
    hide ImageOnDisk, IsFirst, Plain, HoldsSectors;
    dtb, fw := Skipped, Skipped;
    r.rgp := scratch[3];
    if scratch[0] % 2 == 1 {
      r.rread, r.relocated, r.gp := Untag(scratch[0]), true, zslGp;
      dtb := LoadPart(r, scratch[1], DTB_WANTED, dram, DTB_AT);
      if dtb == Skipped { return Spin, dtb, fw; }
      ghost var loaded := dram[DTB_AT..];
      fw := LoadPart(r, scratch[1], FW_WANTED, dram, 0);
      assert dram[DTB_AT..] == loaded;
      if fw == Skipped { return Spin, dtb, fw; }
    }
    launch := Jump(ZSL_FW, 0, ZSL_DTB, 0);
  }

  // ----- The whole chain

  /** The ROM image's pointers fit the 32-bit registers between the stages. */
  predicate Passable(rom: Rom) {
    rom.read % 2 == 0 && rom.read < TWO_32 && rom.priv < TWO_32 && 0 < rom.gp < TWO_32
  }

  /** Whatever way the harts interleave: enough rounds in which each gets a turn. */
  ghost predicate FairRounds(rounds: seq<seq<SmpBarrier.Move>>, n: nat) {
    && (forall i :: 0 <= i < |rounds| ==> SmpBarrier.Covers(rounds[i], n))
    && (2 * n + 7) + (n - 1) * (n + 5) <= |rounds|
  }

  predicate AllJumped(pcs: seq<SmpBarrier.Pc>, n: nat, address: nat) {
    |pcs| == n && forall h :: 0 <= h < n ==> pcs[h] == SmpBarrier.Jumped(address, h)
  }

  /** `boot_next_stage`: publish, wake everybody, jump. */
  method BootNextStage(words: seq<nat>, n: nat, address: nat, rounds: seq<seq<SmpBarrier.Move>>)
    returns (pcs: seq<SmpBarrier.Pc>, after: seq<nat>)
    requires 0 < n && |words| == 16 && address < TWO_64 && FairRounds(rounds, n)
    ensures AllJumped(pcs, n, address)
    ensures after == words[4 := SmpBarrier.Low(address)][5 := SmpBarrier.High(address)]
  {
    hide SmpBarrier.Run, SmpBarrier.Step;
    SmpBarrier.FairRunFinishes(n, address, words, rounds);
    var soc := new SmpBarrier.Soc(n, address, words);
    soc.Turns(SmpBarrier.Flatten(rounds));
    pcs, after := soc.pcs[..], soc.scratch[..];
    assert soc.State().pcs == pcs && soc.State().scratch == after;
  }

  /** What the two stages leave: how the ROM's load ended, where the harts went, how the zero-stage
      loader ended and what it copied. */
  datatype Outcome = Outcome(rom: Loaded, zsl: Range, pcs: seq<SmpBarrier.Pc>, launch: Launch, dtb: Copy, fw: Copy)

  /** The ROM stage did its part: the loader is in SPM and every hart is there with its own id. */
  predicate Entered(disk: seq<byte>, o: Outcome, n: nat, spm: seq<byte>) {
    && Image(disk, o.zsl) <= spm && ImageOnDisk(disk, o.zsl)
    && (Plain(disk, o.zsl) ==> HoldsSectors(disk, o.zsl, spm))
    && AllJumped(o.pcs, n, 0x1000_0000)
  }

  /** From `boot_spi_sdcard` after initialisation to the launch of the firmware. The code that
      the ROM put into SPM is the zero-stage loader, linked with the global pointer `zslGp`. */
  method BootSdcard(r: Reader, spm: array<byte>, scratch: array<nat>, n: nat, rounds: seq<seq<SmpBarrier.Move>>,
                    zslGp: nat, dram: array<byte>)
    returns (o: Outcome)
    requires r.Valid() && !r.relocated && Passable(r.rom) && scratch.Length == 16 && zslGp != 0 && spm != dram
    requires 0 < n && FairRounds(rounds, n)
    requires 0x200 * SPM_MAX_LBAS <= spm.Length < TWO_63
    requires DTB_AT + 0x200 * DTB_MAX_LBAS <= dram.Length < TWO_63
    modifies r, r.sd, spm, scratch, dram
    ensures o.launch == Spin || o.launch == Jump(ZSL_FW, 0, ZSL_DTB, 0)
    ensures OnlyWindows(old(dram[..]), dram[..])
    ensures o.launch.Jump? ==> o.rom == Handed
    ensures o.rom == Handed ==> Entered(r.disk, o, n, spm[..])
    ensures o.launch.Jump? ==>
              && CopyIn(r.disk, FW_WANTED, o.fw, dram[..])
              && CopyIn(r.disk, DTB_WANTED, o.dtb, dram[DTB_AT..])
    ensures (FallsBack(r.disk, ZSL_WANTED) ==> FirstIsSafe(r.disk, SPM_MAX_LBAS)) ==>
              o.rom != Overrun && Untouched(old(spm[..]), spm[..], 0, 0xC000)
    ensures old(r.Dependable()) && Readable(r.disk) && Signed(r.disk)
            && (FallsBack(r.disk, ZSL_WANTED) ==> FirstIsSafe(r.disk, SPM_MAX_LBAS)) ==>
              && Chosen(r.disk, ZSL_WANTED, o.zsl)
              && (ImageOnDisk(r.disk, o.zsl) ==>
                    && (o.launch.Jump? <==> !NoHit(r.disk, FW_WANTED) && !NoHit(r.disk, DTB_WANTED))
                    && (o.launch.Jump? ==> (o.fw.ret == 0 <==> ImageOnDisk(r.disk, o.fw.range)))
                    && (o.launch.Jump? ==> (o.dtb.ret == 0 <==> ImageOnDisk(r.disk, o.dtb.range))))
    ensures old(r.Dependable()) ==>
              forall b: nat, n: nat :: Due(r.disk, ZSL_WANTED, b, n) ==>
                o.rom == Handed && StartsWith(spm[..], r.disk, b, n)
    ensures old(r.Dependable()) ==>
              forall b: nat, n: nat, b1: nat, n1: nat, b2: nat, n2: nat ::
                Due(r.disk, ZSL_WANTED, b, n)
                && Partition(r.disk, FW_WANTED, b1, n1) && Partition(r.disk, DTB_WANTED, b2, n2) ==>
                  && o.launch == Jump(0x8000_0000, 0, 0x8080_0000, 0)
                  && StartsWith(dram[..], r.disk, b1, n1) && StartsWith(dram[0x80_0000..], r.disk, b2, n2)
  {
    hide Due, Partition, Sectors, StartsWith;
    hide SdCard.Serves, SdCard.Prompt, CardAddress, PacketsOf, Degraded, Look, ImageLen, ImageAddr, NoHit;
    hide TableOnDisk, ImageOnDisk;
    hide IsFirst, FirstIsSafe, FallsBack, Chosen, Signed, OnDisk, Image, AllJumped, FairRounds, RawRange;
    var rom, zsl := GptBootPartElseRaw(r, r.rom.priv, spm, ZSL_WANTED, scratch);
    if rom != Handed { return Outcome(rom, zsl, [], Spin, Skipped, Skipped); }
    var pcs, words := BootNextStage(scratch[..], n, SPM_BASE, rounds);
    PointerSurvives(r.rom.read);
    if Plain(r.disk, zsl) {
      PlainImage(r.disk, zsl);
    }
    var launch, dtb, fw := ZslMain(r, zslGp, words, dram);
    o := Outcome(rom, zsl, pcs, launch, dtb, fw);
  }
}
