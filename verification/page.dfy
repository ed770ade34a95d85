/**
 * The slotted page as insertRecord and readRecord lay it out (src/rbfm/rbfm.cc:74-154).
 *
 *   [record 1][record 2] ... [record n] free ... [slot n] ... [slot 1][N][F]
 *
 * The last two `unsigned`s are the slot count N (at PAGE_SIZE - 8) and the
 * free-space count F (at PAGE_SIZE - 4). Slot i is an 8-byte entry, an
 * `unsigned` offset followed by an `unsigned` length, at PAGE_SIZE - 8 - 8 * i;
 * slots are numbered from 1 and grow toward the front of the page. A new record
 * goes right after the record of the last (left-most) slot.
 */
module SlottedPage {
  import opened Bytes
  import opened Pfm

  /** Bytes of a directory entry as the code writes it: `unsigned` offset, `unsigned` length. */
  const SLOT_ENTRY_SIZE: nat := 8

  /** The header's `SLOT_SIZE` (two `unsigned short`s); declared, but no code uses it. */
  const SLOT_SIZE: nat := 4

  /** The header's `TOMBSTONE_MARKER`; declared, but no code uses it. */
  const TOMBSTONE_MARKER: nat := 4096

  /** Most slot entries a page has room for: slot 511 starts at byte 0. */
  const MAX_SLOT: nat := 511

  /** Byte at which the entry of slot i starts (slot 0 would be the [N][F] pair). */
  function SlotEntry(i: nat): (r: nat)
    requires i <= MAX_SLOT
    ensures r + SLOT_ENTRY_SIZE <= PAGE_SIZE
  {
    PAGE_SIZE - 8 - SLOT_ENTRY_SIZE * i
  }

  function NumSlots(p: Page): u32
  {
    ReadU32(p, PAGE_SIZE - 8)
  }

  function FreeSpace(p: Page): u32
  {
    ReadU32(p, PAGE_SIZE - 4)
  }

  function SlotOffset(p: Page, i: nat): u32
    requires i <= MAX_SLOT
  {
    ReadU32(p, SlotEntry(i))
  }

  function SlotLength(p: Page, i: nat): u32
    requires i <= MAX_SLOT
  {
    ReadU32(p, SlotEntry(i) + 4)
  }

  /** Where the records end: right after the record of the last slot. */
  function HeapEnd(p: Page): nat
    requires 1 <= NumSlots(p) <= MAX_SLOT
  {
    SlotOffset(p, NumSlots(p)) + SlotLength(p, NumSlots(p))
  }

  /**
   * The page invariant: at least one slot, the directory fits the page, every
   * byte is accounted for (records, slot entries, [N][F], free space), and every
   * record lies within the record area.
   */
  predicate WellFormed(p: Page)
  {
    var n := NumSlots(p);
    1 <= n && SLOT_ENTRY_SIZE * n + 8 <= PAGE_SIZE &&
    HeapEnd(p) + SLOT_ENTRY_SIZE * n + 8 + FreeSpace(p) == PAGE_SIZE &&
    forall i :: 1 <= i <= n ==> SlotOffset(p, i) + SlotLength(p, i) <= HeapEnd(p)
  }

  /** The bytes readRecord copies for slot i: `length` bytes from `offset`. */
  function RecordAt(p: Page, i: nat): (r: seq<byte>)
    requires i <= MAX_SLOT && SlotOffset(p, i) + SlotLength(p, i) <= PAGE_SIZE
    ensures |r| == SlotLength(p, i)
  {
    p[SlotOffset(p, i)..SlotOffset(p, i) + SlotLength(p, i)]
  }

  /** The record of a slot, given where its entry says it starts and ends. */
  lemma RecordAtSlice(p: Page, i: nat, lo: nat, hi: nat)
    requires i <= MAX_SLOT && SlotOffset(p, i) == lo && SlotOffset(p, i) + SlotLength(p, i) == hi <= PAGE_SIZE
    ensures RecordAt(p, i) == p[lo..hi]
  {
  }

  /**
   * A fresh page around one record, written over `buf` (whatever the page buffer
   * held): the record at byte 0, slot 1 = {0, S} at PAGE_SIZE - 16, N = 1 and
   * F = PAGE_SIZE - S - 16 in `unsigned` arithmetic.
   */
  function FreshPage(buf: Page, record: seq<byte>): Page
    requires |record| <= PAGE_SIZE
  {
    var directory := PAGE_SIZE - 16;
    var p1 := Write(buf, 0, record);
    var p2 := Write(p1, directory, EncodeU32(0));
    var p3 := Write(p2, directory + 4, EncodeU32(|record|));
    var p4 := Write(p3, PAGE_SIZE - 8, EncodeU32(1));
    Write(p4, PAGE_SIZE - 4, EncodeU32(Sub32(Sub32(PAGE_SIZE, |record|), 16)))
  }

  /** The header fields and slot 1 of a fresh page. */
  lemma FreshPageFields(buf: Page, record: seq<byte>)
    requires |record| + 16 <= PAGE_SIZE
    ensures var r := FreshPage(buf, record);
      NumSlots(r) == 1 && FreeSpace(r) == PAGE_SIZE - |record| - 16 &&
      SlotOffset(r, 1) == 0 && SlotLength(r, 1) == |record|
  {
    var directory := PAGE_SIZE - 16;
    var s := |record|;
    var p1 := Write(buf, 0, record);
    var p2 := Write(p1, directory, EncodeU32(0));
    var p3 := Write(p2, directory + 4, EncodeU32(s));
    var p4 := Write(p3, PAGE_SIZE - 8, EncodeU32(1));
    var f := Sub32(Sub32(PAGE_SIZE, s), 16);
    var r := Write(p4, PAGE_SIZE - 4, EncodeU32(f));
    assert r == FreshPage(buf, record);
    ReadU32AfterWrite(p3, PAGE_SIZE - 8, 1);
    ReadU32AfterOtherWrite(p4, PAGE_SIZE - 4, EncodeU32(f), PAGE_SIZE - 8);
    ReadU32AfterWrite(p4, PAGE_SIZE - 4, f);
    ReadU32AfterWrite(p1, directory, 0);
    ReadU32AfterOtherWrite(p2, directory + 4, EncodeU32(s), directory);
    ReadU32AfterOtherWrite(p3, PAGE_SIZE - 8, EncodeU32(1), directory);
    ReadU32AfterOtherWrite(p4, PAGE_SIZE - 4, EncodeU32(f), directory);
    ReadU32AfterWrite(p2, directory + 4, s);
    ReadU32AfterOtherWrite(p3, PAGE_SIZE - 8, EncodeU32(1), directory + 4);
    ReadU32AfterOtherWrite(p4, PAGE_SIZE - 4, EncodeU32(f), directory + 4);
  }

  /** The bytes in front of the directory of a fresh page: the record, then whatever the buffer held. */
  lemma FreshPageBytes(buf: Page, record: seq<byte>)
    requires |record| + 16 <= PAGE_SIZE
    ensures var r := FreshPage(buf, record);
      r[0..|record|] == record && r[|record|..PAGE_SIZE - 16] == buf[|record|..PAGE_SIZE - 16]
  {
    var directory := PAGE_SIZE - 16;
    var s := |record|;
    var p1 := Write(buf, 0, record);
    var p2 := Write(p1, directory, EncodeU32(0));
    var p3 := Write(p2, directory + 4, EncodeU32(s));
    var p4 := Write(p3, PAGE_SIZE - 8, EncodeU32(1));
    var f := Sub32(Sub32(PAGE_SIZE, s), 16);
    var r := Write(p4, PAGE_SIZE - 4, EncodeU32(f));
    assert r == FreshPage(buf, record);
    WriteKeepsSlice(buf, 0, record, s, directory);
    WriteKeepsSlice(p1, directory, EncodeU32(0), 0, s);
    WriteKeepsSlice(p2, directory + 4, EncodeU32(s), 0, s);
    WriteKeepsSlice(p3, PAGE_SIZE - 8, EncodeU32(1), 0, s);
    WriteKeepsSlice(p4, PAGE_SIZE - 4, EncodeU32(f), 0, s);
    WriteKeepsSlice(p1, directory, EncodeU32(0), s, directory);
    WriteKeepsSlice(p2, directory + 4, EncodeU32(s), s, directory);
    WriteKeepsSlice(p3, PAGE_SIZE - 8, EncodeU32(1), s, directory);
    WriteKeepsSlice(p4, PAGE_SIZE - 4, EncodeU32(f), s, directory);
  }

  /**
   * Layout of a fresh page: a single slot {0, S} holding the record, free space
   * PAGE_SIZE - S - 16, the page well formed, and the bytes between the record
   * and the directory left as the buffer had them.
   */
  lemma FreshPageLayout(buf: Page, record: seq<byte>)
    requires |record| + 16 <= PAGE_SIZE
    ensures var r := FreshPage(buf, record);
      NumSlots(r) == 1 && FreeSpace(r) == PAGE_SIZE - |record| - 16 &&
      SlotOffset(r, 1) == 0 && SlotLength(r, 1) == |record| &&
      RecordAt(r, 1) == record && WellFormed(r) &&
      r[|record|..PAGE_SIZE - 16] == buf[|record|..PAGE_SIZE - 16]
  {
    var r := FreshPage(buf, record);
    FreshPageFields(buf, record);
    FreshPageBytes(buf, record);
    RecordAtSlice(r, 1, 0, |record|);
  }

  /**
   * A record longer than PAGE_SIZE - 16 still gets a fresh page (every copy of
   * that branch stays inside the buffer), but `PAGE_SIZE - S - 16` wraps in
   * `unsigned` arithmetic: the stored free space is at least 2^32 - 16 and the
   * page is not well formed.
   */
  lemma OversizedFreshPage(buf: Page, record: seq<byte>)
    requires PAGE_SIZE - 16 < |record| <= PAGE_SIZE
    ensures var r := FreshPage(buf, record);
      FreeSpace(r) == PAGE_SIZE - |record| - 16 + U32_MODULUS &&
      FreeSpace(r) >= U32_MODULUS - 16 &&
      !WellFormed(r)
  {
    var s := |record|;
    var p1 := Write(buf, 0, record);
    var p2 := Write(p1, PAGE_SIZE - 16, EncodeU32(0));
    var p3 := Write(p2, PAGE_SIZE - 12, EncodeU32(s));
    var p4 := Write(p3, PAGE_SIZE - 8, EncodeU32(1));
    var f := Sub32(Sub32(PAGE_SIZE, s), 16);
    assert Write(p4, PAGE_SIZE - 4, EncodeU32(f)) == FreshPage(buf, record);
    ReadU32AfterWrite(p4, PAGE_SIZE - 4, f);
  }

  /** The copies of insertRecord's existing-page branch stay within the page. */
  predicate InsertInBounds(p: Page, recordSize: nat)
  {
    var n := NumSlots(p);
    SLOT_ENTRY_SIZE * n + 16 <= PAGE_SIZE &&
    SlotOffset(p, n) + SlotLength(p, n) + recordSize <= PAGE_SIZE
  }

  /**
   * insertRecord's existing-page branch on the page buffer: read N and the
   * left-most entry {offset, length}; copy the record to offset + length; write
   * the new entry {offset + length, S} 8 bytes further left; store N + 1 and
   * F - (S + 8), both in `unsigned` arithmetic.
   */
  function InsertIntoPage(p: Page, record: seq<byte>): Page
    requires InsertInBounds(p, |record|)
  {
    var n := NumSlots(p);
    var leftMostEntry := SlotEntry(n);
    var offset := ReadU32(p, leftMostEntry);
    var length := ReadU32(p, leftMostEntry + 4);
    var p1 := Write(p, offset + length, record);
    var p2 := Write(p1, leftMostEntry - 4, EncodeU32(|record|));
    var p3 := Write(p2, leftMostEntry - 8, EncodeU32(offset + length));
    var p4 := Write(p3, PAGE_SIZE - 8, EncodeU32(Inc32(n)));
    Write(p4, PAGE_SIZE - 4, EncodeU32(Sub32(FreeSpace(p), |record| + 8)))
  }

  /** On a well-formed page the guard `F >= S` keeps every copy of the insert inside the page. */
  lemma WellFormedInsertInBounds(p: Page, recordSize: nat)
    requires WellFormed(p) && 1 <= recordSize <= FreeSpace(p)
    ensures InsertInBounds(p, recordSize)
  {
    var n := NumSlots(p);
    assert SLOT_ENTRY_SIZE * n + 8 < PAGE_SIZE;
    assert SLOT_ENTRY_SIZE * n + 16 <= PAGE_SIZE by {
      assert PAGE_SIZE == SLOT_ENTRY_SIZE * 512;
      assert n < 511;
    }
  }

  /**
   * The five copies of the existing-page branch with the four `unsigned` images
   * left abstract: the record at h, then a at lm - 4, b at lm - 8, c at
   * PAGE_SIZE - 8 and d at PAGE_SIZE - 4.
   */
  function FiveCopies(p: seq<byte>, h: nat, record: seq<byte>, lm: nat,
                      a: seq<byte>, b: seq<byte>, c: seq<byte>, d: seq<byte>): (r: seq<byte>)
    requires |p| == PAGE_SIZE && |a| == 4 && |b| == 4 && |c| == 4 && |d| == 4
    requires h + |record| <= PAGE_SIZE && 8 <= lm <= PAGE_SIZE - 8
    ensures |r| == PAGE_SIZE
  {
    Write(Write(Write(Write(Write(p, h, record), lm - 4, a), lm - 8, b), PAGE_SIZE - 8, c), PAGE_SIZE - 4, d)
  }

  lemma InsertIntoPageIsFiveCopies(p: Page, record: seq<byte>)
    requires 1 <= NumSlots(p) && InsertInBounds(p, |record|)
    ensures var n := NumSlots(p); var h := HeapEnd(p); var s := |record|;
      InsertIntoPage(p, record) ==
      FiveCopies(p, h, record, SlotEntry(n), EncodeU32(s), EncodeU32(h), EncodeU32(Inc32(n)),
                 EncodeU32(Sub32(FreeSpace(p), s + 8)))
  {
  }

  /** The four small copies land where they were sent; none overlaps another. */
  lemma FiveCopiesEntries(p: seq<byte>, h: nat, record: seq<byte>, lm: nat,
                          a: seq<byte>, b: seq<byte>, c: seq<byte>, d: seq<byte>)
    requires |p| == PAGE_SIZE && |a| == 4 && |b| == 4 && |c| == 4 && |d| == 4
    requires h + |record| <= PAGE_SIZE && 8 <= lm <= PAGE_SIZE - 8
    ensures var r := FiveCopies(p, h, record, lm, a, b, c, d);
      r[lm - 4..lm] == a && r[lm - 8..lm - 4] == b &&
      r[PAGE_SIZE - 8..PAGE_SIZE - 4] == c && r[PAGE_SIZE - 4..PAGE_SIZE] == d
  {
    var p1 := Write(p, h, record);
    var p2 := Write(p1, lm - 4, a);
    var p3 := Write(p2, lm - 8, b);
    var p4 := Write(p3, PAGE_SIZE - 8, c);
    WriteKeepsSlice(p2, lm - 8, b, lm - 4, lm);
    WriteKeepsSlice(p3, PAGE_SIZE - 8, c, lm - 4, lm);
    WriteKeepsSlice(p4, PAGE_SIZE - 4, d, lm - 4, lm);
    WriteKeepsSlice(p3, PAGE_SIZE - 8, c, lm - 8, lm - 4);
    WriteKeepsSlice(p4, PAGE_SIZE - 4, d, lm - 8, lm - 4);
    WriteKeepsSlice(p4, PAGE_SIZE - 4, d, PAGE_SIZE - 8, PAGE_SIZE - 4);
  }

  /** Bytes that none of the five copies touches keep their value. */
  lemma FiveCopiesKeep(p: seq<byte>, h: nat, record: seq<byte>, lm: nat,
                       a: seq<byte>, b: seq<byte>, c: seq<byte>, d: seq<byte>, lo: nat, hi: nat)
    requires |p| == PAGE_SIZE && |a| == 4 && |b| == 4 && |c| == 4 && |d| == 4
    requires h + |record| <= PAGE_SIZE && 8 <= lm <= PAGE_SIZE - 8
    requires lo <= hi <= PAGE_SIZE - 8
    requires hi <= h || h + |record| <= lo
    requires hi <= lm - 8 || lm <= lo
    ensures FiveCopies(p, h, record, lm, a, b, c, d)[lo..hi] == p[lo..hi]
  {
    var p1 := Write(p, h, record);
    var p2 := Write(p1, lm - 4, a);
    var p3 := Write(p2, lm - 8, b);
    var p4 := Write(p3, PAGE_SIZE - 8, c);
    WriteKeepsSlice(p, h, record, lo, hi);
    WriteKeepsSlice(p1, lm - 4, a, lo, hi);
    WriteKeepsSlice(p2, lm - 8, b, lo, hi);
    WriteKeepsSlice(p3, PAGE_SIZE - 8, c, lo, hi);
    WriteKeepsSlice(p4, PAGE_SIZE - 4, d, lo, hi);
  }

  /** When the record ends before lm - 8, the later copies leave it intact. */
  lemma FiveCopiesRecord(p: seq<byte>, h: nat, record: seq<byte>, lm: nat,
                         a: seq<byte>, b: seq<byte>, c: seq<byte>, d: seq<byte>)
    requires |p| == PAGE_SIZE && |a| == 4 && |b| == 4 && |c| == 4 && |d| == 4
    requires 8 <= lm <= PAGE_SIZE - 8 && h + |record| <= lm - 8
    ensures FiveCopies(p, h, record, lm, a, b, c, d)[h..h + |record|] == record
  {
    var p1 := Write(p, h, record);
    var p2 := Write(p1, lm - 4, a);
    var p3 := Write(p2, lm - 8, b);
    var p4 := Write(p3, PAGE_SIZE - 8, c);
    WriteKeepsSlice(p1, lm - 4, a, h, h + |record|);
    WriteKeepsSlice(p2, lm - 8, b, h, h + |record|);
    WriteKeepsSlice(p3, PAGE_SIZE - 8, c, h, h + |record|);
    WriteKeepsSlice(p4, PAGE_SIZE - 4, d, h, h + |record|);
  }

  /** Reading an `unsigned` whose four bytes are the image of v gives v. */
  lemma ReadU32OfImage(p: seq<byte>, at: nat, v: u32)
    requires at + 4 <= |p| && p[at..at + 4] == EncodeU32(v)
    ensures ReadU32(p, at) == v
  {
    DecodeEncode(v);
  }

  /** The four `unsigned`s the five copies store read back as the values stored. */
  lemma FiveCopiesReads(p: seq<byte>, h: nat, record: seq<byte>, lm: nat, s: u32, o: u32, n: u32, f: u32)
    requires |p| == PAGE_SIZE && h + |record| <= PAGE_SIZE && 8 <= lm <= PAGE_SIZE - 8
    ensures var r := FiveCopies(p, h, record, lm, EncodeU32(s), EncodeU32(o), EncodeU32(n), EncodeU32(f));
      ReadU32(r, lm - 4) == s && ReadU32(r, lm - 8) == o &&
      ReadU32(r, PAGE_SIZE - 8) == n && ReadU32(r, PAGE_SIZE - 4) == f
  {
    var r := FiveCopies(p, h, record, lm, EncodeU32(s), EncodeU32(o), EncodeU32(n), EncodeU32(f));
    FiveCopiesEntries(p, h, record, lm, EncodeU32(s), EncodeU32(o), EncodeU32(n), EncodeU32(f));
    ReadU32OfImage(r, PAGE_SIZE - 8, n);
    ReadU32OfImage(r, PAGE_SIZE - 4, f);
    ReadU32OfImage(r, lm - 8, o);
    ReadU32OfImage(r, lm - 4, s);
  }

  /** The header fields and the new slot entry that the five copies of InsertIntoPage leave, whatever the guard. */
  lemma InsertIntoPageFields(p: Page, record: seq<byte>)
    requires 1 <= NumSlots(p) && InsertInBounds(p, |record|)
    ensures var r := InsertIntoPage(p, record); var n := NumSlots(p);
      NumSlots(r) == n + 1 &&
      FreeSpace(r) == Sub32(FreeSpace(p), |record| + 8) &&
      SlotOffset(r, n + 1) == HeapEnd(p) && SlotLength(r, n + 1) == |record|
  {
    var n := NumSlots(p);
    var lm := SlotEntry(n);
    var h, s, f := HeapEnd(p), |record|, Sub32(FreeSpace(p), |record| + 8);
    var r := FiveCopies(p, h, record, lm, EncodeU32(s), EncodeU32(h), EncodeU32(Inc32(n)), EncodeU32(f));
    assert InsertIntoPage(p, record) == r by {
      InsertIntoPageIsFiveCopies(p, record);
    }
    FiveCopiesReads(p, h, record, lm, s, h, Inc32(n), f);
    assert SlotEntry(n + 1) == lm - 8;
  }

  /** When the new record ends before the new entry, the records and the old directory are left alone. */
  lemma InsertIntoPageKeeps(p: Page, record: seq<byte>)
    requires 1 <= NumSlots(p) && InsertInBounds(p, |record|)
    requires HeapEnd(p) + |record| <= SlotEntry(NumSlots(p)) - 8
    ensures var r := InsertIntoPage(p, record); var lm := SlotEntry(NumSlots(p));
      r[..HeapEnd(p)] == p[..HeapEnd(p)] &&
      r[HeapEnd(p)..HeapEnd(p) + |record|] == record &&
      r[lm..PAGE_SIZE - 8] == p[lm..PAGE_SIZE - 8]
  {
    var n := NumSlots(p);
    var lm := SlotEntry(n);
    var h := HeapEnd(p);
    var s := |record|;
    var a, b, c, d := EncodeU32(s), EncodeU32(h), EncodeU32(Inc32(n)), EncodeU32(Sub32(FreeSpace(p), s + 8));
    InsertIntoPageIsFiveCopies(p, record);
    FiveCopiesKeep(p, h, record, lm, a, b, c, d, 0, h);
    FiveCopiesKeep(p, h, record, lm, a, b, c, d, lm, PAGE_SIZE - 8);
    FiveCopiesRecord(p, h, record, lm, a, b, c, d);
  }

  /** Pages that agree on a prefix agree on every slice of it. */
  lemma SliceOfPrefix(q: Page, p: Page, h: nat, lo: nat, hi: nat)
    requires lo <= hi <= h <= PAGE_SIZE && q[..h] == p[..h]
    ensures q[lo..hi] == p[lo..hi]
  {
    assert q[lo..hi] == q[..h][lo..hi];
    assert p[lo..hi] == p[..h][lo..hi];
  }

  /** A 4-byte read inside a slice is determined by that slice. */
  lemma ReadU32InSlice(p: Page, q: Page, lo: nat, hi: nat, at: nat)
    requires lo <= at && at + 4 <= hi <= PAGE_SIZE && q[lo..hi] == p[lo..hi]
    ensures ReadU32(q, at) == ReadU32(p, at)
  {
    forall i | at <= i < at + 4
      ensures q[i] == p[i]
    {
      assert q[i] == q[lo..hi][i - lo];
      assert p[i] == p[lo..hi][i - lo];
    }
    assert q[at..at + 4] == p[at..at + 4];
  }

  /** An insert that fits leaves every earlier slot entry and its record as it was. */
  lemma InsertIntoPageOldSlots(p: Page, record: seq<byte>, i: nat)
    requires WellFormed(p) && 1 <= |record| && |record| + 8 <= FreeSpace(p)
    requires 1 <= i <= NumSlots(p)
    ensures InsertInBounds(p, |record|)
    ensures var r := InsertIntoPage(p, record);
      SlotOffset(r, i) == SlotOffset(p, i) && SlotLength(r, i) == SlotLength(p, i) &&
      RecordAt(r, i) == RecordAt(p, i)
  {
    WellFormedInsertInBounds(p, |record|);
    var r := InsertIntoPage(p, record);
    var lm := SlotEntry(NumSlots(p));
    var h := HeapEnd(p);
    InsertIntoPageKeeps(p, record);
    ReadU32InSlice(p, r, lm, PAGE_SIZE - 8, SlotEntry(i));
    ReadU32InSlice(p, r, lm, PAGE_SIZE - 8, SlotEntry(i) + 4);
    var o, l := SlotOffset(p, i), SlotLength(p, i);
    RecordAtSlice(r, i, o, o + l);
    RecordAtSlice(p, i, o, o + l);
    SliceOfPrefix(r, p, h, o, o + l);
  }

  /**
   * A page with one more slot than a well-formed page p, the same earlier slots,
   * the new slot right after p's records and S + 8 bytes less free space, is
   * well formed.
   */
  lemma WellFormedAfterAppendSlot(p: Page, r: Page, s: nat)
    requires WellFormed(p) && 8 * NumSlots(p) + 16 <= PAGE_SIZE
    requires NumSlots(r) == NumSlots(p) + 1
    requires s + 8 <= FreeSpace(p) && FreeSpace(r) == FreeSpace(p) - s - 8
    requires SlotOffset(r, NumSlots(r)) == HeapEnd(p) && SlotLength(r, NumSlots(r)) == s
    requires forall i :: 1 <= i <= NumSlots(p) ==>
      SlotOffset(r, i) == SlotOffset(p, i) && SlotLength(r, i) == SlotLength(p, i)
    ensures WellFormed(r)
  {
    var n := NumSlots(p);
    assert HeapEnd(r) == HeapEnd(p) + s;
    forall i | 1 <= i <= n + 1
      ensures SlotOffset(r, i) + SlotLength(r, i) <= HeapEnd(r)
    {
      if i <= n {
        assert SlotOffset(p, i) + SlotLength(p, i) <= HeapEnd(p);
      }
    }
  }

  /** An insert that fits keeps the page well formed. */
  lemma InsertIntoPageWellFormed(p: Page, record: seq<byte>)
    requires WellFormed(p) && 1 <= |record| && |record| + 8 <= FreeSpace(p)
    ensures InsertInBounds(p, |record|)
    ensures WellFormed(InsertIntoPage(p, record))
  {
    WellFormedInsertInBounds(p, |record|);
    var r := InsertIntoPage(p, record);
    InsertIntoPageFields(p, record);
    forall i | 1 <= i <= NumSlots(p)
      ensures SlotOffset(r, i) == SlotOffset(p, i) && SlotLength(r, i) == SlotLength(p, i)
    {
      InsertIntoPageOldSlots(p, record, i);
    }
    WellFormedAfterAppendSlot(p, r, |record|);
  }

  /** An insert that fits adds slot N + 1, holding the record right after the last one, and charges S + 8 bytes. */
  lemma InsertIntoPageNewSlot(p: Page, record: seq<byte>)
    requires WellFormed(p) && 1 <= |record| && |record| + 8 <= FreeSpace(p)
    ensures InsertInBounds(p, |record|)
    ensures var r := InsertIntoPage(p, record); var n := NumSlots(p);
      NumSlots(r) == n + 1 && FreeSpace(r) == FreeSpace(p) - |record| - 8 &&
      SlotOffset(r, n + 1) == HeapEnd(p) && SlotLength(r, n + 1) == |record| &&
      RecordAt(r, n + 1) == record
  {
    WellFormedInsertInBounds(p, |record|);
    var r := InsertIntoPage(p, record);
    var h := HeapEnd(p);
    InsertIntoPageFields(p, record);
    InsertIntoPageKeeps(p, record);
    RecordAtSlice(r, NumSlots(p) + 1, h, h + |record|);
  }

  /**
   * Insert into an existing page when F >= S + 8: the record becomes slot N + 1
   * right after the last record, N rises by 1, F falls by S + 8, the page stays
   * well formed, and every earlier slot and its record are unchanged.
   */
  lemma InsertIntoPageLayout(p: Page, record: seq<byte>)
    requires WellFormed(p) && 1 <= |record| && |record| + 8 <= FreeSpace(p)
    ensures InsertInBounds(p, |record|)
    ensures var r := InsertIntoPage(p, record); var n := NumSlots(p);
      WellFormed(r) &&
      NumSlots(r) == n + 1 && FreeSpace(r) == FreeSpace(p) - |record| - 8 &&
      SlotOffset(r, n + 1) == HeapEnd(p) && SlotLength(r, n + 1) == |record| &&
      RecordAt(r, n + 1) == record &&
      (forall i :: 1 <= i <= n ==>
         SlotOffset(r, i) == SlotOffset(p, i) && SlotLength(r, i) == SlotLength(p, i) &&
         RecordAt(r, i) == RecordAt(p, i))
  {
    var r := InsertIntoPage(p, record);
    var n := NumSlots(p);
    InsertIntoPageNewSlot(p, record);
    InsertIntoPageWellFormed(p, record);
    forall i | 1 <= i <= n
      ensures SlotOffset(r, i) == SlotOffset(p, i) && SlotLength(r, i) == SlotLength(p, i)
      ensures RecordAt(r, i) == RecordAt(p, i)
    {
      InsertIntoPageOldSlots(p, record, i);
    }
  }

  /**
   * The guard gap: the branch tests only F >= S although it uses S + 8 bytes.
   * When S <= F < S + 8 the new slot entry overlaps the tail of the record just
   * copied, the `unsigned` free-space count wraps to at least 2^32 - 8, and the
   * page is no longer well formed.
   */
  lemma GuardGap(p: Page, record: seq<byte>)
    requires WellFormed(p) && 1 <= |record| <= FreeSpace(p) < |record| + 8
    ensures InsertInBounds(p, |record|)
    ensures var r := InsertIntoPage(p, record);
      SlotEntry(NumSlots(p) + 1) < HeapEnd(p) + |record| &&
      FreeSpace(r) == FreeSpace(p) + U32_MODULUS - |record| - 8 &&
      FreeSpace(r) >= U32_MODULUS - 8 &&
      !WellFormed(r)
  {
    WellFormedInsertInBounds(p, |record|);
    InsertIntoPageFields(p, record);
  }
}
