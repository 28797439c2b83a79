/** A GUID partition table as it is written to a disk: the reference for the search in sw/lib/gpt.c,
    which reads it field by field. */
module GptTable {
  import opened Common
  import opened Bits

  /** Two 64-bit words, as the source compares GUIDs. */
  datatype Guid = Guid(lo: nat, hi: nat)

  /** "EFI PART". */
  const EFI_PART: seq<byte> := [0x45, 0x46, 0x49, 0x20, 0x50, 0x41, 0x52, 0x54]

  datatype Entry = Entry(kind: Guid, id: Guid, first: nat, last: nat)

  predicate Storable(e: Entry) {
    && e.kind.lo < TWO_64 && e.kind.hi < TWO_64 && e.id.lo < TWO_64 && e.id.hi < TWO_64
    && e.first < TWO_64 && e.last < TWO_64
  }

  function Pair(a: nat, b: nat): (d: seq<byte>)
    ensures |d| == 16
  {
    LeBytes(a, 8) + LeBytes(b, 8)
  }

  /** The fields of an entry, all in little-endian order. */
  function Stored(e: Entry): (d: seq<byte>)
    ensures |d| == 48
  {
    Pair(e.kind.lo, e.kind.hi) + Pair(e.id.lo, e.id.hi) + Pair(e.first, e.last)
  }

  predicate StoredAt(disk: seq<byte>, at: nat, e: Entry) {
    Storable(e) && at + 48 <= |disk| && disk[at..at + 48] == Stored(e)
  }

  /** The header names sector `lba`, the number of entries and their size; entry `p` starts `p * size`
      bytes after the start of that sector. */
  ghost predicate Written(disk: seq<byte>, lba: nat, size: nat, entries: seq<Entry>) {
    && lba < TWO_64 && |entries| < TWO_32 && size < TWO_32 && 0x258 <= |disk| <= 0x200_0000_0000
    && disk[0x248..0x258] == LeBytes(lba, 8) + LeBytes(|entries|, 4) + LeBytes(size, 4)
    && forall p :: 0 <= p < |entries| ==> StoredAt(disk, 512 * lba + p * size, entries[p])
  }

  ghost predicate HasTable(disk: seq<byte>) {
    exists lba: nat, size: nat, entries :: Written(disk, lba, size, entries)
  }

  /** What a caller looks for. */
  datatype Wanted = Wanted(maxLbas: nat, tguid: Option<Guid>, pguid: Option<Guid>)

  /** Fewer than `maxLbas` sectors after the first one, counted in 64 bits, and a GUID that was asked for. */
  predicate Matching(e: Entry, w: Wanted) {
    && (if e.first <= e.last then e.last - e.first else e.last + TWO_64 - e.first) < w.maxLbas
    && ((w.tguid.Some? && e.kind == w.tguid.value) || (w.pguid.Some? && e.id == w.pguid.value))
  }

  ghost predicate NoneMatching(entries: seq<Entry>, w: Wanted) {
    forall q :: 0 <= q < |entries| ==> !Matching(entries[q], w)
  }

  ghost predicate LeastMatching(entries: seq<Entry>, w: Wanted, p: nat) {
    p < |entries| && Matching(entries[p], w) && NoneMatching(entries[..p], w)
  }
}
