/** A disk on which the zero-stage loader launches a firmware that it could not read: the table's
    firmware entry fits and matches, but lies past the end of the disk (sw/boot/zsl.c:44). */
module FailedCopy {
  import opened Common
  import opened Bits
  import opened SpiSdcard
  import opened GptTable
  import opened Gpt
  import opened Boot

  const MISSING: Range := Range(1000, 1000)

  /** The device tree in sector 0, the firmware in sector 1000. */
  const ENTRIES: seq<Entry> := [Entry(DTB_TYPE, Guid(0, 0), 0, 0), Entry(FW_TYPE, Guid(0, 0), 1000, 1000)]

  /** Three sectors, the last of them with the table of two entries of 128 bytes. */
  function SmallDisk(): (disk: seq<byte>)
    ensures |disk| == 0x600
  {
    ZeroBytes(584) + (LeBytes(2, 8) + LeBytes(2, 4) + LeBytes(128, 4)) + ZeroBytes(424)
    + Stored(ENTRIES[0]) + ZeroBytes(80) + Stored(ENTRIES[1]) + ZeroBytes(336)
  }

  lemma SmallWritten()
    ensures Written(SmallDisk(), 2, 128, ENTRIES)
  {
    hide LeBytes, Stored;
    var disk := SmallDisk();
    assert disk[0x400..0x430] == Stored(ENTRIES[0]) && disk[0x480..0x4b0] == Stored(ENTRIES[1]);
  }

  lemma SmallMatches()
    ensures LeastMatching(ENTRIES, DTB_WANTED, 0) && LeastMatching(ENTRIES, FW_WANTED, 1)
  {}

  lemma SmallTable()
    ensures TableOnDisk(SmallDisk()) && FirstHit(SmallDisk(), 0, DTB_WANTED) && FirstHit(SmallDisk(), 1, FW_WANTED)
    ensures EntryRange(SmallDisk(), TableHeader(SmallDisk()), 1) == MISSING
  {
    hide SmallDisk, Written, TableOnDisk, EntryRange, TableHeader, FirstHit, LeastMatching, NoHit, NoneMatching;
    SmallWritten();
    SmallMatches();
    TableReadable(SmallDisk());
    AnswerFound(SmallDisk(), 2, 128, ENTRIES, DTB_WANTED, Range(0, 0), 0, Range(0, 0));
    AnswerFound(SmallDisk(), 2, 128, ENTRIES, FW_WANTED, Range(0, 0), 1, MISSING);
  }

  /** The launch does not depend on the copy. */
  method LaunchAfterFailedCopy(r: Reader, zslGp: nat, scratch: seq<nat>, dram: array<byte>)
    returns (launch: Launch, fw: Copy)
    requires r.Valid() && r.disk == SmallDisk() && r.Dependable() && |scratch| == 16 && zslGp != 0
    requires scratch[0] == r.rom.read + 1 && r.rom.read % 2 == 0
    requires scratch[1] == r.rom.priv && scratch[3] == r.rom.gp != 0
    requires DTB_AT + 0x200 * DTB_MAX_LBAS <= dram.Length < TWO_63
    modifies r, r.sd, dram
    ensures launch == Jump(ZSL_FW, 0, ZSL_DTB, 0) && fw.Copied? && fw.range == MISSING && fw.ret != 0
  {
    hide SmallDisk, TableHeader, EntryRange, TableOnDisk, Hit;
    SmallTable();
    var dtb;
    launch, dtb, fw := ZslMain(r, zslGp, scratch, dram);
    OnlyFirst(r.disk, FW_WANTED, 1, fw.range);
    assert !ImageOnDisk(r.disk, MISSING);
  }
}
