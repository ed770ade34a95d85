/**
 * The record-based file manager (src/include/rbfm.h, src/rbfm/rbfm.cc):
 * insertRecord's search for a page, the page buffer it fills, the RID it
 * returns, readRecord, and the bookkeeping types RID and PageInfo.
 *
 * insertRecord tries the last data page first; if the record does not fit
 * there it walks the data pages from 0, and when none fits it reads one page
 * past the end (readPage admits it and leaves the buffer as it was) and then
 * appends a fresh page built in that buffer.
 */
module Rbfm {
  import opened Bytes
  import opened Pfm
  import opened RecordCodec
  import opened SlottedPage

  /** A record id: `unsigned` page number, `unsigned short` slot number. */
  datatype RID = RID(pageNum: u32, slotNum: u16)

  /** An entry of the (declared, unused) free-space heap. */
  datatype PageInfo = PageInfo(pageNum: int, freeSpace: u16)

  /** PageInfo::operator<: only the free space takes part. */
  predicate PageInfoLess(a: PageInfo, b: PageInfo)
  {
    a.freeSpace < b.freeSpace
  }

  /**
   * The entry a `priority_queue<PageInfo>` hands out first: one that no other
   * entry is greater than, i.e. a page with the most free space.
   */
  function MostFree(heap: seq<PageInfo>): (r: PageInfo)
    requires |heap| > 0
    ensures r in heap
    ensures forall x :: x in heap ==> !PageInfoLess(r, x)
    ensures forall x :: x in heap ==> x.freeSpace <= r.freeSpace
  {
    if |heap| == 1 then heap[0]
    else
      var rest := MostFree(heap[1..]);
      assert forall x :: x in heap ==> x == heap[0] || x in heap[1..];
      if PageInfoLess(heap[0], rest) then rest else heap[0]
  }

  /** insertRecord's fit test: the page's free-space count is at least S. */
  predicate Fits(p: Page, recordSize: nat)
  {
    FreeSpace(p) >= recordSize
  }

  /** The first data page at or after `from` that passes the fit test. */
  function FirstFit(dataPages: seq<Page>, recordSize: nat, from: nat): (r: Option<nat>)
    requires from <= |dataPages|
    ensures r.Some? ==>
      from <= r.value < |dataPages| && Fits(dataPages[r.value], recordSize) &&
      forall j :: from <= j < r.value ==> !Fits(dataPages[j], recordSize)
    ensures r.None? ==> forall j :: from <= j < |dataPages| ==> !Fits(dataPages[j], recordSize)
    decreases |dataPages| - from
  {
    if from == |dataPages| then None
    else if Fits(dataPages[from], recordSize) then Some(from)
    else FirstFit(dataPages, recordSize, from + 1)
  }

  /** Where insertRecord puts a record: into an existing data page, or on a page it appends. */
  datatype Placement = OnPage(pageNum: nat) | Appended

  /**
   * The page insertRecord chooses: the last data page if the record fits there,
   * otherwise the first data page that fits, otherwise a new page.
   */
  function Choose(dataPages: seq<Page>, recordSize: nat): (r: Placement)
    ensures r.OnPage? ==> r.pageNum < |dataPages| && Fits(dataPages[r.pageNum], recordSize)
    ensures |dataPages| > 0 && Fits(dataPages[|dataPages| - 1], recordSize) ==> r == OnPage(|dataPages| - 1)
    ensures r.OnPage? && r.pageNum != |dataPages| - 1 ==>
      !Fits(dataPages[|dataPages| - 1], recordSize) &&
      forall j :: 0 <= j < r.pageNum ==> !Fits(dataPages[j], recordSize)
    ensures r.Appended? <==> forall j :: 0 <= j < |dataPages| ==> !Fits(dataPages[j], recordSize)
  {
    var n := |dataPages|;
    if n == 0 then Appended
    else if Fits(dataPages[n - 1], recordSize) then OnPage(n - 1)
    else match FirstFit(dataPages, recordSize, 0)
      case Some(k) => OnPage(k)
      case None => Appended
  }

  /**
   * How many times insertRecord calls readPage: none on an empty file, one when
   * the last page fits, k + 2 when page k is the first fit of the second pass,
   * and N + 2 (pages N - 1, 0 .. N - 1 and one past the end) when it appends.
   */
  function ReadsMade(dataPages: seq<Page>, recordSize: nat): nat
  {
    var n := |dataPages|;
    if n == 0 then 0
    else if Fits(dataPages[n - 1], recordSize) then 1
    else match FirstFit(dataPages, recordSize, 0)
      case Some(k) => k + 2
      case None => n + 2
  }

  /** The data page insertRecord writes: the page chosen, or the new page N when it appends. */
  function WrittenPage(dataPages: seq<Page>, recordSize: nat): nat
  {
    match Choose(dataPages, recordSize)
    case OnPage(k) => k
    case Appended => |dataPages|
  }

  /** The file after `readCount` calls of readPage: the stored read counter has gone up by `readCount`. */
  function AfterReads(f: seq<Page>, readCount: nat): (r: seq<Page>)
    requires |f| >= 1
    ensures |r| == |f| && r[1..] == f[1..]
  {
    if readCount == 0 then f
    else WithCounter(f, READ_SLOT, (CounterOf(f, READ_SLOT) + readCount) % U32_MODULUS)
  }

  /** One more readPage on top of `readCount` of them. */
  lemma AfterOneMoreRead(f: seq<Page>, readCount: nat)
    requires |f| >= 1
    ensures var g := AfterReads(f, readCount);
      WithCounter(g, READ_SLOT, Inc32(CounterOf(g, READ_SLOT))) == AfterReads(f, readCount + 1)
    ensures forall k: CounterSlot :: k != READ_SLOT ==> CounterOf(AfterReads(f, readCount), k) == CounterOf(f, k)
    ensures CounterOf(AfterReads(f, readCount + 1), READ_SLOT) == (CounterOf(f, READ_SLOT) + readCount + 1) % U32_MODULUS
  {
    var r0 := CounterOf(f, READ_SLOT);
    if readCount > 0 {
      var g := AfterReads(f, readCount);
      assert CounterOf(g, READ_SLOT) == (r0 + readCount) % U32_MODULUS;
      Inc32OfMod(r0 + readCount);
      WithCounterTwice(f, READ_SLOT, (r0 + readCount) % U32_MODULUS, (r0 + readCount + 1) % U32_MODULUS);
    }
  }

  /** What insertRecord can be given: every data page well formed, and fewer than 2^20 - 1 of them. */
  predicate InsertableFile(f: seq<Page>)
  {
    1 <= |f| <= 0xF_FFFF && forall k :: 1 <= k < |f| ==> WellFormed(f[k])
  }

  /**
   * The file after insertRecord: the readCount have raised the read counter; then
   * either the chosen page holds the record and the write counter rose by one,
   * or a fresh page built over the buffer (the uninitialised buffer on an empty
   * file, else the last data page, still in it from the read past the end) was
   * appended.
   */
  function InsertedFile(f: seq<Page>, record: seq<byte>, garbage: Page): seq<Page>
    requires InsertableFile(f) && 1 <= |record| && |record| + 16 <= PAGE_SIZE
  {
    var dataPages := f[1..];
    var n := |dataPages|;
    var afterReads := AfterReads(f, ReadsMade(dataPages, |record|));
    match Choose(dataPages, |record|)
    case OnPage(k) =>
      assert WellFormed(f[k + 1]);
      WellFormedInsertInBounds(dataPages[k], |record|);
      var written := PutPage(afterReads, k + 1, InsertIntoPage(dataPages[k], record));
      WithCounter(written, WRITE_SLOT, Inc32(CounterOf(f, WRITE_SLOT)))
    case Appended =>
      AppendedPages(afterReads, FreshPage(if n == 0 then garbage else dataPages[n - 1], record))
  }

  /**
   * The RID insertRecord returns: the slot number is the page's new slot count,
   * truncated to an `unsigned short`; the page number is the loop variable after
   * its final `pageNum++`.
   */
  function ReturnedRid(dataPages: seq<Page>, recordSize: nat): RID
    requires |dataPages| < 0xF_FFFF
  {
    match Choose(dataPages, recordSize)
    case OnPage(k) => RID(k + 1, Inc32(NumSlots(dataPages[k])) % 0x1_0000)
    case Appended => RID(if |dataPages| == 0 then 0 else |dataPages| + 1, 1)
  }

  /** What insertRecord stores for a record: the stream createRecordStream builds. */
  function StoredRecord(recordDescriptor: seq<Attribute>, data: seq<byte>): (r: seq<byte>)
    requires NullIndicatorSize(|recordDescriptor|) <= |data|
    requires StoredSize(recordDescriptor, NullFlags(data, |recordDescriptor|)) <= |data|
  {
    data[..StoredSize(recordDescriptor, NullFlags(data, |recordDescriptor|))]
  }

  /** What insertRecord can be given: at least one field, the charged bytes present, and a record that fits a fresh page. */
  predicate InsertableRecord(recordDescriptor: seq<Attribute>, data: seq<byte>)
  {
    1 <= |recordDescriptor| && NullIndicatorSize(|recordDescriptor|) <= |data| &&
    StoredSize(recordDescriptor, NullFlags(data, |recordDescriptor|)) <= |data| &&
    StoredSize(recordDescriptor, NullFlags(data, |recordDescriptor|)) + 16 <= PAGE_SIZE
  }

  /** The page readRecord looks at: the one readPage copies, or the buffer as it was when readPage copies nothing. */
  function PageSeen(f: seq<Page>, pageNum: u32, buffer: Page): Page
  {
    if pageNum <= CounterOf(f, NUM_PAGES_SLOT) && PhysicalIndex(pageNum) < |f| then f[PhysicalIndex(pageNum)]
    else buffer
  }

  /** The fresh-page branch of insertRecord on the page buffer. */
  method WriteFreshPage(page: array<byte>, record: seq<byte>)
    requires page.Length == PAGE_SIZE && |record| + 16 <= PAGE_SIZE
    modifies page
    ensures page[..] == FreshPage(old(page[..]), record)
  {
    var directory := PAGE_SIZE - 16;
    CopyInto(page, 0, record);
    var offset: u32 := 0;
    var length: u32 := |record|;
    var numberOfSlots: u32 := 1;
    var freeSpace := Sub32(Sub32(PAGE_SIZE, |record|), 16);
    CopyInto(page, directory, EncodeU32(offset));
    CopyInto(page, directory + 4, EncodeU32(length));
    CopyInto(page, PAGE_SIZE - 8, EncodeU32(numberOfSlots));
    CopyInto(page, PAGE_SIZE - 4, EncodeU32(freeSpace));
  }

  /** The existing-page branch of insertRecord on the page buffer; returns the new slot count. */
  method WriteIntoPage(page: array<byte>, record: seq<byte>) returns (numberOfSlots: u32)
    requires page.Length == PAGE_SIZE && InsertInBounds(page[..], |record|)
    modifies page
    ensures page[..] == InsertIntoPage(old(page[..]), record)
    ensures numberOfSlots == Inc32(NumSlots(old(page[..])))
  {
    var freeSpace := ReadU32(page[..], PAGE_SIZE - 4);
    numberOfSlots := ReadU32(page[..], PAGE_SIZE - 8);
    var leftMostEntry := PAGE_SIZE - 8 - numberOfSlots * 8;
    var offset := ReadU32(page[..], leftMostEntry);
    var length := ReadU32(page[..], leftMostEntry + 4);
    CopyInto(page, offset + length, record);
    offset := offset + length;
    length := |record|;
    numberOfSlots := Inc32(numberOfSlots);
    freeSpace := Sub32(freeSpace, |record| + 8);
    CopyInto(page, leftMostEntry - 4, EncodeU32(length));
    CopyInto(page, leftMostEntry - 8, EncodeU32(offset));
    CopyInto(page, PAGE_SIZE - 8, EncodeU32(numberOfSlots));
    CopyInto(page, PAGE_SIZE - 4, EncodeU32(freeSpace));
  }

  /** The three I/O counters a FileHandle keeps in memory. */
  datatype Counters = Counters(read: u32, write: u32, append: u32)

  function CountersOf(fileHandle: FileHandle): Counters
    reads fileHandle
  {
    Counters(fileHandle.readPageCounter, fileHandle.writePageCounter, fileHandle.appendPageCounter)
  }

  /** The in-memory counters after `readCount` calls of readPage, starting from `before`. */
  function CountersAfterReads(before: Counters, f: seq<Page>, readCount: nat): Counters
    requires |f| >= 1
  {
    before.(read := if readCount == 0 then before.read else (CounterOf(f, READ_SLOT) + readCount) % U32_MODULUS)
  }

  /**
   * The in-memory counters after insertRecord: the read counter reflects every
   * readPage, the write counter the writePage of an existing page, the append
   * counter the appendPage of a new one; each is the stored value plus one.
   */
  function InsertedCounters(f: seq<Page>, recordSize: nat, before: Counters): Counters
    requires |f| >= 1
  {
    var placement := Choose(f[1..], recordSize);
    CountersAfterReads(before, f, ReadsMade(f[1..], recordSize)).(
      write := if placement.OnPage? then Inc32(CounterOf(f, WRITE_SLOT)) else before.write,
      append := if placement.Appended? then Inc32(CounterOf(f, APPEND_SLOT)) else before.append)
  }

  /** The page count stored in the hidden page matches the data pages of a file that fits insertRecord. */
  predicate Counted(f: seq<Page>)
  {
    1 <= |f| <= 0xF_FFFF && CounterOf(f, NUM_PAGES_SLOT) == |f| - 1
  }

  /**
   * Where insertRecord's loop stands while it has not inserted: before the
   * first read (pageNum = N - 1, the buffer uninitialised) or in the second
   * pass at pageNum, having read pageNum + 1 pages, none of which fits, the
   * buffer holding the page read last.
   */
  ghost predicate Searching(dataPages: seq<Page>, recordSize: nat, garbage: Page, buffer: seq<byte>,
                            pageNum: int, read: bool, readCount: nat)
  {
    var n := |dataPages|;
    (!read ==> pageNum == n - 1 && readCount == 0 && buffer == garbage) &&
    (read ==>
      n > 0 && 0 <= pageNum <= n && readCount == pageNum + 1 &&
      !Fits(dataPages[n - 1], recordSize) &&
      (forall j :: 0 <= j < pageNum && j < n ==> !Fits(dataPages[j], recordSize)) &&
      buffer == dataPages[if pageNum == 0 then n - 1 else pageNum - 1])
  }

  /** The last page fits: it is chosen after one read. */
  lemma LastPageChosen(dataPages: seq<Page>, recordSize: nat)
    requires |dataPages| > 0 && Fits(dataPages[|dataPages| - 1], recordSize)
    ensures Choose(dataPages, recordSize) == OnPage(|dataPages| - 1)
    ensures ReadsMade(dataPages, recordSize) == 1
  {
  }

  /** The second pass stops at the first page that fits, after k + 2 reads. */
  lemma SecondPassChosen(dataPages: seq<Page>, recordSize: nat, k: nat)
    requires k < |dataPages| && Fits(dataPages[k], recordSize)
    requires !Fits(dataPages[|dataPages| - 1], recordSize)
    requires forall j :: 0 <= j < k ==> !Fits(dataPages[j], recordSize)
    ensures Choose(dataPages, recordSize) == OnPage(k)
    ensures ReadsMade(dataPages, recordSize) == k + 2
  {
    var r := FirstFit(dataPages, recordSize, 0);
    assert r.Some? && r.value == k;
  }

  /** No page fits: a page is appended after N + 2 reads. */
  lemma NoPageChosen(dataPages: seq<Page>, recordSize: nat)
    requires |dataPages| > 0
    requires forall j :: 0 <= j < |dataPages| ==> !Fits(dataPages[j], recordSize)
    ensures Choose(dataPages, recordSize) == Appended
    ensures ReadsMade(dataPages, recordSize) == |dataPages| + 2
  {
    assert FirstFit(dataPages, recordSize, 0).None?;
  }

  /** The first pass read page N - 1 and it did not fit: the second pass starts at page 0. */
  lemma SearchStart(dataPages: seq<Page>, recordSize: nat, garbage: Page, buffer: seq<byte>)
    requires |dataPages| > 0 && buffer == dataPages[|dataPages| - 1] && !Fits(dataPages[|dataPages| - 1], recordSize)
    ensures Searching(dataPages, recordSize, garbage, buffer, 0, true, 1)
  {
  }

  /** The second pass read page k < N and it did not fit: it goes on at page k + 1. */
  lemma SearchAdvance(dataPages: seq<Page>, recordSize: nat, garbage: Page, buffer: seq<byte>, buffer': seq<byte>, k: nat)
    requires Searching(dataPages, recordSize, garbage, buffer, k, true, k + 1)
    requires k < |dataPages| && buffer' == dataPages[k] && !Fits(dataPages[k], recordSize)
    ensures Searching(dataPages, recordSize, garbage, buffer', k + 1, true, k + 2)
  {
  }

  /** The end state of an insert into existing page k. */
  lemma OnPageDone(f: seq<Page>, record: seq<byte>, garbage: Page, k: nat, readCount: nat, before: Counters)
    requires InsertableFile(f) && 1 <= |record| && |record| + 16 <= PAGE_SIZE
    requires Choose(f[1..], |record|) == OnPage(k) && ReadsMade(f[1..], |record|) == readCount
    ensures k + 1 < |f| && InsertInBounds(f[k + 1], |record|)
    ensures InsertedFile(f, record, garbage) ==
      WithCounter(PutPage(AfterReads(f, readCount), k + 1, InsertIntoPage(f[k + 1], record)),
                  WRITE_SLOT, Inc32(CounterOf(f, WRITE_SLOT)))
    ensures InsertedCounters(f, |record|, before) ==
      CountersAfterReads(before, f, readCount).(write := Inc32(CounterOf(f, WRITE_SLOT)))
  {
    assert f[1..][k] == f[k + 1];
    WellFormedInsertInBounds(f[k + 1], |record|);
  }

  /** The end state of an insert on an appended page built over `buffer`. */
  lemma AppendedDone(f: seq<Page>, record: seq<byte>, garbage: Page, readCount: nat, before: Counters)
    requires InsertableFile(f) && 1 <= |record| && |record| + 16 <= PAGE_SIZE
    requires Choose(f[1..], |record|) == Appended && ReadsMade(f[1..], |record|) == readCount
    ensures InsertedFile(f, record, garbage) ==
      AppendedPages(AfterReads(f, readCount), FreshPage(if |f| == 1 then garbage else f[|f| - 1], record))
    ensures InsertedCounters(f, |record|, before) ==
      CountersAfterReads(before, f, readCount).(append := Inc32(CounterOf(f, APPEND_SLOT)))
  {
    if |f| > 1 {
      assert f[1..][|f| - 2] == f[|f| - 1];
    }
  }

  /** The RID after an insert into existing page k: the loop has already moved on to k + 1. */
  lemma OnPageRid(dataPages: seq<Page>, recordSize: nat, k: nat)
    requires |dataPages| < 0xF_FFFF && Choose(dataPages, recordSize) == OnPage(k)
    ensures ReturnedRid(dataPages, recordSize) == RID(k + 1, Inc32(NumSlots(dataPages[k])) % 0x1_0000)
  {
  }

  /** The RID after an append: page 0 on an empty file, otherwise N + 1; slot 1. */
  lemma AppendedRid(dataPages: seq<Page>, recordSize: nat)
    requires |dataPages| < 0xF_FFFF && Choose(dataPages, recordSize) == Appended
    ensures ReturnedRid(dataPages, recordSize) == RID(if |dataPages| == 0 then 0 else |dataPages| + 1, 1)
  {
  }

  /** readPage(pageNum) inside insertRecord's loop, on a data page or one past the end. */
  method ReadForInsert(fileHandle: FileHandle, pageNum: u32, page: array<byte>,
                       ghost f: seq<Page>, ghost readCount: nat, ghost before: Counters)
    requires fileHandle.openedFile != null && Counted(f)
    requires fileHandle.openedFile.pages == AfterReads(f, readCount)
    requires CountersOf(fileHandle) == CountersAfterReads(before, f, readCount)
    requires pageNum <= |f| - 1 && page.Length == PAGE_SIZE
    modifies fileHandle, fileHandle.openedFile, page
    ensures fileHandle.openedFile == old(fileHandle.openedFile)
    ensures fileHandle.openedFile.pages == AfterReads(f, readCount + 1)
    ensures CountersOf(fileHandle) == CountersAfterReads(before, f, readCount + 1)
    ensures page[..] == if pageNum < |f| - 1 then f[pageNum + 1] else old(page[..])
    ensures fileHandle.StoredCounter(NUM_PAGES_SLOT) == |f| - 1
  {
    AfterOneMoreRead(f, readCount);
    PhysicalIndexOfDataPage(pageNum);
    var _ := fileHandle.ReadPage(pageNum, page);
  }

  /** writePage(pageNum) of an existing data page inside insertRecord's loop. */
  method WriteForInsert(fileHandle: FileHandle, pageNum: u32, page: array<byte>,
                        ghost f: seq<Page>, ghost readCount: nat, ghost before: Counters)
    requires fileHandle.openedFile != null && Counted(f)
    requires fileHandle.openedFile.pages == AfterReads(f, readCount)
    requires CountersOf(fileHandle) == CountersAfterReads(before, f, readCount)
    requires pageNum < |f| - 1 && page.Length == PAGE_SIZE
    modifies fileHandle, fileHandle.openedFile
    ensures fileHandle.openedFile == old(fileHandle.openedFile)
    ensures fileHandle.openedFile.pages ==
      WithCounter(PutPage(AfterReads(f, readCount), pageNum + 1, page[..]), WRITE_SLOT, Inc32(CounterOf(f, WRITE_SLOT)))
    ensures CountersOf(fileHandle) == CountersAfterReads(before, f, readCount).(write := Inc32(CounterOf(f, WRITE_SLOT)))
  {
    AfterOneMoreRead(f, readCount);
    PhysicalIndexOfDataPage(pageNum);
    ghost var written := PutPage(AfterReads(f, readCount), pageNum + 1, page[..PAGE_SIZE]);
    assert written[0] == AfterReads(f, readCount)[0];
    assert page[..PAGE_SIZE] == page[..];
    var _ := fileHandle.WritePage(pageNum, page);
  }

  /** appendPage of a fresh page inside insertRecord's loop. */
  method AppendForInsert(fileHandle: FileHandle, page: array<byte>,
                         ghost f: seq<Page>, ghost readCount: nat, ghost before: Counters)
    requires fileHandle.openedFile != null && Counted(f)
    requires fileHandle.openedFile.pages == AfterReads(f, readCount)
    requires CountersOf(fileHandle) == CountersAfterReads(before, f, readCount)
    requires page.Length == PAGE_SIZE
    modifies fileHandle, fileHandle.openedFile
    ensures fileHandle.openedFile == old(fileHandle.openedFile)
    ensures fileHandle.openedFile.pages == AppendedPages(AfterReads(f, readCount), page[..])
    ensures CountersOf(fileHandle) == CountersAfterReads(before, f, readCount).(append := Inc32(CounterOf(f, APPEND_SLOT)))
  {
    AfterOneMoreRead(f, readCount);
    assert page[..PAGE_SIZE] == page[..];
    var _ := fileHandle.AppendPage(page);
  }

  /** insertRecord's existing-page branch: fill the buffer, then writePage. Returns the new slot count. */
  method InsertOnChosenPage(fileHandle: FileHandle, pageNum: u32, page: array<byte>, record: seq<byte>,
                            ghost f: seq<Page>, ghost garbage: Page, ghost readCount: nat, ghost before: Counters)
    returns (numberOfSlots: u32)
    requires fileHandle.openedFile != null && Counted(f) && InsertableFile(f)
    requires 1 <= |record| && |record| + 16 <= PAGE_SIZE
    requires Choose(f[1..], |record|) == OnPage(pageNum) && ReadsMade(f[1..], |record|) == readCount
    requires fileHandle.openedFile.pages == AfterReads(f, readCount)
    requires CountersOf(fileHandle) == CountersAfterReads(before, f, readCount)
    requires page.Length == PAGE_SIZE && page[..] == f[pageNum + 1]
    modifies fileHandle, fileHandle.openedFile, page
    ensures fileHandle.openedFile == old(fileHandle.openedFile)
    ensures fileHandle.openedFile.pages == InsertedFile(f, record, garbage)
    ensures CountersOf(fileHandle) == InsertedCounters(f, |record|, before)
    ensures numberOfSlots == Inc32(NumSlots(f[pageNum + 1]))
  {
    OnPageDone(f, record, garbage, pageNum, readCount, before);
    numberOfSlots := WriteIntoPage(page, record);
    WriteForInsert(fileHandle, pageNum, page, f, readCount, before);
  }

  /** insertRecord's fresh-page branches: build the page in the buffer, then appendPage. */
  method InsertOnNewPage(fileHandle: FileHandle, page: array<byte>, record: seq<byte>,
                         ghost f: seq<Page>, ghost garbage: Page, ghost readCount: nat, ghost before: Counters)
    requires fileHandle.openedFile != null && Counted(f) && InsertableFile(f)
    requires 1 <= |record| && |record| + 16 <= PAGE_SIZE
    requires Choose(f[1..], |record|) == Appended && ReadsMade(f[1..], |record|) == readCount
    requires fileHandle.openedFile.pages == AfterReads(f, readCount)
    requires CountersOf(fileHandle) == CountersAfterReads(before, f, readCount)
    requires page.Length == PAGE_SIZE && page[..] == if |f| == 1 then garbage else f[|f| - 1]
    modifies fileHandle, fileHandle.openedFile, page
    ensures fileHandle.openedFile == old(fileHandle.openedFile)
    ensures fileHandle.openedFile.pages == InsertedFile(f, record, garbage)
    ensures CountersOf(fileHandle) == InsertedCounters(f, |record|, before)
  {
    AppendedDone(f, record, garbage, readCount, before);
    WriteFreshPage(page, record);
    AppendForInsert(fileHandle, page, f, readCount, before);
  }

  /** What insertRecord's loop is run on: a counted, insertable file and a record stream that fits a fresh page. */
  predicate LoopInput(f: seq<Page>, record: seq<byte>)
  {
    Counted(f) && InsertableFile(f) && 1 <= |record| && |record| + 16 <= PAGE_SIZE
  }

  /**
   * insertRecord's loop has not inserted yet: the file and the in-memory
   * counters show `readCount` reads of `f`, and the search stands at pageNum.
   */
  ghost predicate Pending(fileHandle: FileHandle, f: seq<Page>, record: seq<byte>, garbage: Page, before: Counters,
                          buffer: seq<byte>, pageNum: int, read: bool, readCount: nat)
    reads fileHandle, fileHandle.openedFile
  {
    fileHandle.openedFile != null && LoopInput(f, record) &&
    fileHandle.openedFile.pages == AfterReads(f, readCount) &&
    CountersOf(fileHandle) == CountersAfterReads(before, f, readCount) &&
    Searching(f[1..], |record|, garbage, buffer, pageNum, read, readCount)
  }

  /** insertRecord's loop has inserted: file, counters and RID are insertRecord's results for `f`. */
  ghost predicate Placed(fileHandle: FileHandle, f: seq<Page>, record: seq<byte>, garbage: Page, before: Counters,
                         pageNum: int, numberOfSlots: u32)
    reads fileHandle, fileHandle.openedFile
  {
    fileHandle.openedFile != null && InsertableFile(f) && 1 <= |record| && |record| + 16 <= PAGE_SIZE &&
    fileHandle.openedFile.pages == InsertedFile(f, record, garbage) &&
    CountersOf(fileHandle) == InsertedCounters(f, |record|, before) &&
    0 <= pageNum < U32_MODULUS &&
    RID(pageNum, numberOfSlots % 0x1_0000) == ReturnedRid(f[1..], |record|)
  }

  /**
   * One pass of insertRecord's loop body on a non-empty file, up to (not
   * including) the final `pageNum++`: read page pageNum, then insert there,
   * start the second pass, append, or move on.
   */
  method SearchStep(fileHandle: FileHandle, page: array<byte>, record: seq<byte>, pageNum: int, read: bool,
                    ghost f: seq<Page>, ghost garbage: Page, ghost readCount: nat, ghost before: Counters)
    returns (pageNum': int, read': bool, inserted: bool, numberOfSlots: u32)
    requires Pending(fileHandle, f, record, garbage, before, page[..], pageNum, read, readCount)
    requires |f| > 1 && page.Length == PAGE_SIZE
    modifies fileHandle, fileHandle.openedFile, page
    ensures fileHandle.openedFile == old(fileHandle.openedFile)
    ensures LoopState(fileHandle, f, record, garbage, before, page[..], pageNum' + 1, read', readCount + 1, inserted, numberOfSlots)
    ensures !inserted ==> read' && (read ==> pageNum' == pageNum)
  {
    ghost var dataPages := f[1..];
    var recordSize := |record|;
    pageNum', read', inserted, numberOfSlots := pageNum, read, false, 0;
    ghost var previous := page[..];
    ReadForInsert(fileHandle, pageNum, page, f, readCount, before);
    var freeSpace := ReadU32(page[..], PAGE_SIZE - 4);
    if freeSpace >= recordSize {
      numberOfSlots := AfterHit(fileHandle, page, record, pageNum, read, f, garbage, previous, readCount, before);
      inserted := true;
    } else {
      pageNum', read', inserted, numberOfSlots :=
        AfterMiss(fileHandle, page, record, pageNum, read, f, garbage, previous, readCount, before);
    }
  }

  /**
   * The rest of insertRecord's loop body once page pageNum has been read and
   * the record fits there: insert it into that page and write the page back.
   */
  method AfterHit(fileHandle: FileHandle, page: array<byte>, record: seq<byte>, pageNum: int, read: bool,
                  ghost f: seq<Page>, ghost garbage: Page, ghost previous: seq<byte>,
                  ghost readCount: nat, ghost before: Counters)
    returns (numberOfSlots: u32)
    requires fileHandle.openedFile != null && LoopInput(f, record)
    requires Searching(f[1..], |record|, garbage, previous, pageNum, read, readCount)
    requires 0 <= pageNum < |f| - 1 && page.Length == PAGE_SIZE && page[..] == f[pageNum + 1]
    requires Fits(page[..], |record|)
    requires fileHandle.openedFile.pages == AfterReads(f, readCount + 1)
    requires CountersOf(fileHandle) == CountersAfterReads(before, f, readCount + 1)
    modifies fileHandle, fileHandle.openedFile, page
    ensures fileHandle.openedFile == old(fileHandle.openedFile)
    ensures Placed(fileHandle, f, record, garbage, before, pageNum + 1, numberOfSlots)
  {
    ghost var dataPages := f[1..];
    assert dataPages[pageNum] == f[pageNum + 1];
    if read {
      SecondPassChosen(dataPages, |record|, pageNum);
    } else {
      LastPageChosen(dataPages, |record|);
    }
    OnPageRid(dataPages, |record|, pageNum);
    numberOfSlots := InsertOnChosenPage(fileHandle, pageNum, page, record, f, garbage, readCount + 1, before);
  }

  /**
   * The rest of insertRecord's loop body once page pageNum has been read and
   * the record does not fit there: start the second pass, append, or move on.
   */
  method AfterMiss(fileHandle: FileHandle, page: array<byte>, record: seq<byte>, pageNum: int, read: bool,
                   ghost f: seq<Page>, ghost garbage: Page, ghost previous: seq<byte>,
                   ghost readCount: nat, ghost before: Counters)
    returns (pageNum': int, read': bool, inserted: bool, numberOfSlots: u32)
    requires fileHandle.openedFile != null && LoopInput(f, record)
    requires Searching(f[1..], |record|, garbage, previous, pageNum, read, readCount)
    requires |f| > 1 && page.Length == PAGE_SIZE
    requires 0 <= pageNum < |f| && page[..] == if pageNum < |f| - 1 then f[pageNum + 1] else previous
    requires !Fits(page[..], |record|)
    requires fileHandle.openedFile.pages == AfterReads(f, readCount + 1)
    requires CountersOf(fileHandle) == CountersAfterReads(before, f, readCount + 1)
    modifies fileHandle, fileHandle.openedFile, page
    ensures fileHandle.openedFile == old(fileHandle.openedFile)
    ensures LoopState(fileHandle, f, record, garbage, before, page[..], pageNum' + 1, read', readCount + 1, inserted, numberOfSlots)
    ensures !inserted ==> read' && (read ==> pageNum' == pageNum)
  {
    ghost var dataPages := f[1..];
    var recordSize := |record|;
    pageNum', read', inserted, numberOfSlots := pageNum, read, false, 0;
    var totalPages := fileHandle.GetNumberOfPages();
    if pageNum == totalPages - 1 && !read {
      SearchStart(dataPages, recordSize, garbage, page[..]);
      pageNum' := -1;
      read' := true;
    } else if pageNum == totalPages && read {
      numberOfSlots := AppendAfterSearch(fileHandle, page, record, f, garbage, readCount, before);
      inserted := true;
    } else {
      SearchAdvance(dataPages, recordSize, garbage, previous, page[..], pageNum);
    }
  }

  /**
   * insertRecord's loop after the read past the end: no data page fits, so a
   * fresh page is built over the buffer, which still holds the last data page,
   * and appended. Returns the new page's slot count.
   */
  method AppendAfterSearch(fileHandle: FileHandle, page: array<byte>, record: seq<byte>,
                           ghost f: seq<Page>, ghost garbage: Page, ghost readCount: nat, ghost before: Counters)
    returns (numberOfSlots: u32)
    requires fileHandle.openedFile != null && LoopInput(f, record) && |f| > 1
    requires Searching(f[1..], |record|, garbage, page[..], |f| - 1, true, readCount)
    requires page.Length == PAGE_SIZE
    requires fileHandle.openedFile.pages == AfterReads(f, readCount + 1)
    requires CountersOf(fileHandle) == CountersAfterReads(before, f, readCount + 1)
    modifies fileHandle, fileHandle.openedFile, page
    ensures fileHandle.openedFile == old(fileHandle.openedFile)
    ensures Placed(fileHandle, f, record, garbage, before, |f|, numberOfSlots)
  {
    ghost var dataPages := f[1..];
    NoPageChosen(dataPages, |record|);
    AppendedRid(dataPages, |record|);
    InsertOnNewPage(fileHandle, page, record, f, garbage, readCount + 1, before);
    numberOfSlots := 1;
  }

  /**
   * insertRecord's loop on a file without data pages: a fresh page is built
   * over the uninitialised buffer and appended. Returns its slot count.
   */
  method AppendToEmpty(fileHandle: FileHandle, page: array<byte>, record: seq<byte>, pageNum: int, read: bool,
                       ghost f: seq<Page>, ghost garbage: Page, ghost readCount: nat, ghost before: Counters)
    returns (numberOfSlots: u32)
    requires Pending(fileHandle, f, record, garbage, before, page[..], pageNum, read, readCount)
    requires |f| == 1 && page.Length == PAGE_SIZE
    modifies fileHandle, fileHandle.openedFile, page
    ensures fileHandle.openedFile == old(fileHandle.openedFile)
    ensures LoopState(fileHandle, f, record, garbage, before, page[..], pageNum + 1, read, readCount, true, numberOfSlots)
  {
    assert !read && readCount == 0 && pageNum == -1;
    assert CountersAfterReads(before, f, 0) == before;
    AppendedRid(f[1..], |record|);
    InsertOnNewPage(fileHandle, page, record, f, garbage, 0, before);
    numberOfSlots := 1;
  }

  /** Where insertRecord's loop stands: inserted with its results, or still searching. */
  ghost predicate LoopState(fileHandle: FileHandle, f: seq<Page>, record: seq<byte>, garbage: Page, before: Counters,
                            buffer: seq<byte>, pageNum: int, read: bool, readCount: nat,
                            inserted: bool, numberOfSlots: u32)
    reads fileHandle, fileHandle.openedFile
  {
    if inserted then Placed(fileHandle, f, record, garbage, before, pageNum, numberOfSlots)
    else Pending(fileHandle, f, record, garbage, before, buffer, pageNum, read, readCount)
  }

  /**
   * The `while (!inserted)` loop of insertRecord for a record stream `record`:
   * returns the final pageNum and numberOfSlots, from which insertRecord forms
   * the RID. The page buffer is allocated uninitialised; `garbage` is its content.
   */
  method PlaceRecord(fileHandle: FileHandle, record: seq<byte>, garbage: Page) returns (pageNum: int, numberOfSlots: u32)
    requires fileHandle.openedFile != null
    requires Counted(fileHandle.openedFile.pages) && InsertableFile(fileHandle.openedFile.pages)
    requires 1 <= |record| && |record| + 16 <= PAGE_SIZE
    modifies fileHandle, fileHandle.openedFile
    ensures fileHandle.openedFile == old(fileHandle.openedFile)
    ensures Placed(fileHandle, old(fileHandle.openedFile.pages), record, garbage, old(CountersOf(fileHandle)),
                   pageNum, numberOfSlots)
  {
    ghost var f := fileHandle.openedFile.pages;
    ghost var before := CountersOf(fileHandle);
    var numPages := fileHandle.GetNumberOfPages();
    pageNum := numPages - 1;
    var read, inserted := false, false;
    var page := new byte[PAGE_SIZE](i requires 0 <= i < PAGE_SIZE => garbage[i]);
    numberOfSlots := 0;
    ghost var readCount: nat := 0;
    assert page[..] == garbage;
    while !inserted
      invariant fileHandle.openedFile == old(fileHandle.openedFile) && page.Length == PAGE_SIZE
      invariant numPages as int == |f| - 1
      invariant LoopState(fileHandle, f, record, garbage, before, page[..], pageNum, read, readCount, inserted, numberOfSlots)
      decreases (if inserted then 0 else 1), (if read then 0 else 1), numPages + 1 - pageNum
    {
      if numPages == 0 {
        numberOfSlots := AppendToEmpty(fileHandle, page, record, pageNum, read, f, garbage, readCount, before);
        inserted := true;
      } else {
        pageNum, read, inserted, numberOfSlots :=
          SearchStep(fileHandle, page, record, pageNum, read, f, garbage, readCount, before);
        readCount := readCount + 1;
      }
      pageNum := pageNum + 1;
    }
  }

  /**
   * The file insertRecord leaves: as many pages, the chosen one holding the
   * record inserted, or one page more, a fresh page built over the buffer;
   * every other data page unchanged; and the stored page count still the
   * number of data pages.
   */
  lemma InsertedFileLayout(f: seq<Page>, record: seq<byte>, garbage: Page)
    requires LoopInput(f, record)
    ensures var g := InsertedFile(f, record, garbage); var w := WrittenPage(f[1..], |record|);
      Choose(f[1..], |record|).OnPage? ==>
        |g| == |f| && w + 1 < |f| && InsertInBounds(f[w + 1], |record|) &&
        g[w + 1] == InsertIntoPage(f[w + 1], record)
    ensures var g := InsertedFile(f, record, garbage); var w := WrittenPage(f[1..], |record|);
      Choose(f[1..], |record|).Appended? ==>
        |g| == |f| + 1 && w + 1 == |f| &&
        g[w + 1] == FreshPage(if |f| == 1 then garbage else f[|f| - 1], record)
    ensures var g := InsertedFile(f, record, garbage); var w := WrittenPage(f[1..], |record|);
      CounterOf(g, NUM_PAGES_SLOT) == |g| - 1 &&
      forall k :: 1 <= k < |f| && k != w + 1 ==> g[k] == f[k]
  {
    match Choose(f[1..], |record|)
    case OnPage(k) => LayoutOnPage(f, record, garbage, k);
    case Appended => LayoutAppended(f, record, garbage);
  }

  /** InsertedFileLayout when page k is chosen. */
  lemma LayoutOnPage(f: seq<Page>, record: seq<byte>, garbage: Page, k: nat)
    requires LoopInput(f, record) && Choose(f[1..], |record|) == OnPage(k)
    ensures k + 1 < |f| && InsertInBounds(f[k + 1], |record|)
    ensures var g := InsertedFile(f, record, garbage);
      |g| == |f| && g[k + 1] == InsertIntoPage(f[k + 1], record) &&
      CounterOf(g, NUM_PAGES_SLOT) == |g| - 1 &&
      forall j :: 1 <= j < |f| && j != k + 1 ==> g[j] == f[j]
  {
    var readCount := ReadsMade(f[1..], |record|);
    var afterReads := AfterReads(f, readCount);
    AfterOneMoreRead(f, readCount);
    assert CounterOf(afterReads, NUM_PAGES_SLOT) == |f| - 1;
    OnPageDone(f, record, garbage, k, readCount, Counters(0, 0, 0));
    var put := PutPage(afterReads, k + 1, InsertIntoPage(f[k + 1], record));
    assert put[0] == afterReads[0];
    forall j | 1 <= j < |f| && j != k + 1
      ensures InsertedFile(f, record, garbage)[j] == f[j]
    {
      assert afterReads[1..][j - 1] == f[1..][j - 1];
    }
  }

  /** InsertedFileLayout when a page is appended. */
  lemma LayoutAppended(f: seq<Page>, record: seq<byte>, garbage: Page)
    requires LoopInput(f, record) && Choose(f[1..], |record|) == Appended
    ensures var g := InsertedFile(f, record, garbage);
      |g| == |f| + 1 && g[|f|] == FreshPage(if |f| == 1 then garbage else f[|f| - 1], record) &&
      CounterOf(g, NUM_PAGES_SLOT) == |g| - 1 &&
      forall j :: 1 <= j < |f| ==> g[j] == f[j]
  {
    var readCount := ReadsMade(f[1..], |record|);
    var afterReads := AfterReads(f, readCount);
    AfterOneMoreRead(f, readCount);
    assert CounterOf(afterReads, NUM_PAGES_SLOT) == |f| - 1;
    AppendedDone(f, record, garbage, readCount, Counters(0, 0, 0));
    var g := InsertedFile(f, record, garbage);
    forall j | 1 <= j < |f|
      ensures g[j] == f[j]
    {
      assert g[1..|f|][j - 1] == afterReads[1..][j - 1] == f[1..][j - 1];
    }
  }

  /** Page q holds, in each slot that page p has, the record p holds there. */
  predicate KeepsRecords(p: Page, q: Page)
    requires WellFormed(p) && WellFormed(q) && NumSlots(p) <= NumSlots(q)
  {
    forall i :: 1 <= i <= NumSlots(p) ==> RecordAt(q, i) == RecordAt(p, i)
  }

  /**
   * When the record goes on a fresh page, or into an existing page with room
   * for its slot entry too (F >= S + 8), every data page is still well formed
   * after insertRecord, the RID's slot number is the written page's new slot
   * count, that slot holds the record, and every earlier slot of the page still
   * holds its record.
   */
  lemma InsertedRecordStored(f: seq<Page>, record: seq<byte>, garbage: Page)
    requires LoopInput(f, record)
    requires match Choose(f[1..], |record|)
      case OnPage(k) => |record| + 8 <= FreeSpace(f[k + 1])
      case Appended => true
    ensures var g := InsertedFile(f, record, garbage); var w := WrittenPage(f[1..], |record|);
      var rid := ReturnedRid(f[1..], |record|);
      w + 1 < |g| && WellFormed(g[w + 1]) &&
      rid.slotNum == NumSlots(g[w + 1]) && RecordAt(g[w + 1], rid.slotNum) == record &&
      (forall k :: 1 <= k < |g| ==> WellFormed(g[k]))
    ensures var g := InsertedFile(f, record, garbage); var w := WrittenPage(f[1..], |record|);
      w + 1 < |f| ==>
        WellFormed(f[w + 1]) && WellFormed(g[w + 1]) && NumSlots(g[w + 1]) == NumSlots(f[w + 1]) + 1 &&
        KeepsRecords(f[w + 1], g[w + 1])
  {
    match Choose(f[1..], |record|)
    case OnPage(k) => StoredOnPage(f, record, garbage, k);
    case Appended => StoredOnFreshPage(f, record, garbage);
  }

  /**
   * The RID insertRecord returns names a real slot: never slot 0, which readRecord
   * would take from the [N][F] pair, and never one past the last slot entry a
   * page can hold.
   */
  lemma ReturnedSlotInRange(f: seq<Page>, record: seq<byte>)
    requires LoopInput(f, record)
    ensures 1 <= ReturnedRid(f[1..], |record|).slotNum <= MAX_SLOT
  {
    match Choose(f[1..], |record|) {
      case OnPage(k) =>
        var p := f[k + 1];
        assert f[1..][k] == p;
        WellFormedInsertInBounds(p, |record|);
        OnPageSlot(f[1..], |record|, k);
      case Appended =>
    }
  }

  /** A slot count below 2^16 survives the cast to `unsigned short`. */
  lemma SmallSlotCount(n: nat)
    requires n < 0x1_0000
    ensures n % 0x1_0000 == n
  {
  }

  /** The slot number returned for an insert into page k is its old slot count plus one. */
  lemma OnPageSlot(dataPages: seq<Page>, recordSize: nat, k: nat)
    requires |dataPages| < 0xF_FFFF && Choose(dataPages, recordSize) == OnPage(k)
    requires k < |dataPages| && NumSlots(dataPages[k]) <= MAX_SLOT
    ensures ReturnedRid(dataPages, recordSize).slotNum == NumSlots(dataPages[k]) + 1
  {
    OnPageRid(dataPages, recordSize, k);
    var n := NumSlots(dataPages[k]);
    assert Inc32(n) == n + 1;
    SmallSlotCount(n + 1);
  }

  /** InsertedRecordStored when page k is chosen. */
  lemma StoredOnPage(f: seq<Page>, record: seq<byte>, garbage: Page, k: nat)
    requires LoopInput(f, record) && Choose(f[1..], |record|) == OnPage(k)
    requires k + 1 < |f| && |record| + 8 <= FreeSpace(f[k + 1])
    ensures var g := InsertedFile(f, record, garbage); |g| == |f| && WellFormed(f[k + 1]) && WellFormed(g[k + 1])
    ensures var q := InsertedFile(f, record, garbage)[k + 1];
      NumSlots(q) == NumSlots(f[k + 1]) + 1 && RecordAt(q, NumSlots(q)) == record
    ensures var q := InsertedFile(f, record, garbage)[k + 1];
      KeepsRecords(f[k + 1], q)
    ensures var q := InsertedFile(f, record, garbage)[k + 1];
      ReturnedRid(f[1..], |record|).slotNum == NumSlots(q)
    ensures var g := InsertedFile(f, record, garbage); forall j :: 1 <= j < |g| ==> WellFormed(g[j])
  {
    InsertedFileLayout(f, record, garbage);
    var g := InsertedFile(f, record, garbage);
    var p := f[k + 1];
    assert f[1..][k] == p;
    InsertIntoPageLayout(p, record);
    var q := InsertIntoPage(p, record);
    assert g[k + 1] == q;
    assert KeepsRecords(p, q) by {
      forall i | 1 <= i <= NumSlots(p)
        ensures RecordAt(q, i) == RecordAt(p, i)
      {
      }
    }
    OnPageSlot(f[1..], |record|, k);
    WellFormedElsewhere(f, g, k);
  }

  /** InsertedRecordStored when a page is appended. */
  lemma StoredOnFreshPage(f: seq<Page>, record: seq<byte>, garbage: Page)
    requires LoopInput(f, record) && Choose(f[1..], |record|) == Appended
    ensures var g := InsertedFile(f, record, garbage); var q := g[|f|];
      |g| == |f| + 1 && WellFormed(q) && NumSlots(q) == 1 && RecordAt(q, 1) == record &&
      ReturnedRid(f[1..], |record|).slotNum == 1 &&
      forall j :: 1 <= j < |g| ==> WellFormed(g[j])
  {
    InsertedFileLayout(f, record, garbage);
    var g := InsertedFile(f, record, garbage);
    FreshPageLayout(if |f| == 1 then garbage else f[|f| - 1], record);
    WellFormedElsewhere(f, g, |f| - 1);
  }

  /** A file whose data pages are those of `f` but for a well-formed page w has only well-formed data pages. */
  lemma WellFormedElsewhere(f: seq<Page>, g: seq<Page>, w: nat)
    requires InsertableFile(f) && w + 1 < |g| && WellFormed(g[w + 1])
    requires |g| == |f| || (|g| == |f| + 1 && w + 1 == |f|)
    requires forall j :: 1 <= j < |f| && j != w + 1 ==> g[j] == f[j]
    ensures forall j :: 1 <= j < |g| ==> WellFormed(g[j])
  {
    forall j | 1 <= j < |g|
      ensures WellFormed(g[j])
    {
      if j != w + 1 {
        assert g[j] == f[j];
      }
    }
  }

  /** After insertRecord, reading back data page w, the page written, gives that page. */
  lemma WrittenPageReadBack(f: seq<Page>, record: seq<byte>, garbage: Page, buffer: Page)
    requires LoopInput(f, record)
    ensures var g := InsertedFile(f, record, garbage); var w := WrittenPage(f[1..], |record|);
      w < 0xF_FFFF && w + 1 < |g| && PageSeen(g, w, buffer) == g[w + 1]
  {
    InsertedFileLayout(f, record, garbage);
    RidPageAfterWritten(f[1..], |record|);
    PageSeenOfWritten(InsertedFile(f, record, garbage), WrittenPage(f[1..], |record|), buffer);
  }

  /**
   * The page the returned RID names on a file with data pages: its number is
   * one past the page written, so reading it back sees the next data page,
   * which the insert left as it was; past the end, the buffer readPage leaves
   * alone; at page 2^20 - 1, the hidden page.
   */
  lemma ReturnedRidPage(f: seq<Page>, record: seq<byte>, garbage: Page, buffer: Page)
    requires LoopInput(f, record) && |f| > 1
    ensures var g := InsertedFile(f, record, garbage); var w := WrittenPage(f[1..], |record|);
      var rid := ReturnedRid(f[1..], |record|);
      rid.pageNum == w + 1 &&
      PageSeen(g, rid.pageNum, buffer) ==
        if w + 2 < |f| then f[w + 2] else if rid.pageNum == 0xF_FFFF then g[0] else buffer
  {
    var g := InsertedFile(f, record, garbage);
    match Choose(f[1..], |record|) {
      case OnPage(k) =>
        LayoutOnPage(f, record, garbage, k);
        PageSeenOfSuccessor(f, g, k, buffer);
      case Appended =>
        LayoutAppended(f, record, garbage);
        PageSeenOfSuccessor(f, g, |f| - 1, buffer);
    }
  }

  /**
   * The RID's page number against the page written: on an empty file both are
   * 0; otherwise the RID's is one more, the loop's final `pageNum++`.
   */
  lemma RidPageAfterWritten(dataPages: seq<Page>, recordSize: nat)
    requires |dataPages| < 0xF_FFFF
    ensures var w := WrittenPage(dataPages, recordSize); var rid := ReturnedRid(dataPages, recordSize);
      w <= |dataPages| &&
      (|dataPages| == 0 ==> rid.pageNum == w == 0) &&
      (|dataPages| > 0 ==> rid.pageNum == w + 1)
  {
  }

  /** Reading data page w of a file whose page count is stored gives physical page w + 1. */
  lemma PageSeenOfWritten(g: seq<Page>, w: nat, buffer: Page)
    requires w < 0xF_FFFF && w + 1 < |g| && CounterOf(g, NUM_PAGES_SLOT) == |g| - 1
    ensures PageSeen(g, w, buffer) == g[w + 1]
  {
    PhysicalIndexOfDataPage(w);
  }

  /** Reading page w + 1 of a file grown from `f` by at most one page, with the page count stored. */
  lemma PageSeenOfSuccessor(f: seq<Page>, g: seq<Page>, w: nat, buffer: Page)
    requires 1 <= |f| <= 0xF_FFFF && w + 1 < |f| + 1 && w + 1 < |g|
    requires |g| == |f| || (|g| == |f| + 1 && w + 1 == |f|)
    requires CounterOf(g, NUM_PAGES_SLOT) == |g| - 1
    requires forall k :: 1 <= k < |f| && k != w + 1 ==> g[k] == f[k]
    ensures PageSeen(g, w + 1, buffer) ==
      if w + 2 < |f| then f[w + 2] else if w + 1 == 0xF_FFFF then g[0] else buffer
  {
    if w + 1 < 0xF_FFFF {
      PhysicalIndexOfDataPage(w + 1);
    } else {
      PageOffsetWrapsToHiddenPage();
    }
  }

  class RecordBasedFileManager {
    const pfm: PagedFileManager
    /** Per open file, the free-space heap (declared; no operation fills it). */
    var fileHeapMap: map<FileHandle, seq<PageInfo>>

    constructor (pfm: PagedFileManager)
      ensures this.pfm == pfm && fileHeapMap == map[]
    {
      this.pfm := pfm;
      fileHeapMap := map[];
    }

    /** reset: forget every heap. */
    method Reset()
      modifies this
      ensures fileHeapMap == map[]
    {
      fileHeapMap := map[];
    }

    /** createFile: the paged file manager's. */
    method CreateFile(fileName: string, garbage: Page) returns (rc: int)
      modifies pfm.fs
      ensures rc == 0 || rc == -1
      ensures rc == -1 <==> fileName in old(pfm.fs.files)
      ensures rc == -1 ==> pfm.fs.files == old(pfm.fs.files)
      ensures rc == 0 ==>
        fileName in pfm.fs.files && fresh(pfm.fs.files[fileName]) &&
        pfm.fs.files == old(pfm.fs.files)[fileName := pfm.fs.files[fileName]] &&
        |pfm.fs.files[fileName].pages| == 1 &&
        pfm.fs.files[fileName].pages[0][..4] == EncodeU32(0) &&
        pfm.fs.files[fileName].pages[0][4..] == garbage[4..]
    {
      rc := pfm.CreateFile(fileName, garbage);
    }

    /** destroyFile: the paged file manager's. */
    method DestroyFile(fileName: string) returns (rc: int)
      modifies pfm.fs
      ensures rc == 0 || rc == -1
      ensures rc == -1 <==> fileName !in old(pfm.fs.files)
      ensures pfm.fs.files == old(pfm.fs.files) - {fileName}
    {
      rc := pfm.DestroyFile(fileName);
    }

    /** openFile: the paged file manager's. */
    method OpenFile(fileName: string, fileHandle: FileHandle) returns (rc: int)
      modifies fileHandle
      ensures rc == 0 || rc == -1
      ensures rc == -1 <==> fileName !in pfm.fs.files
      ensures rc == -1 ==> unchanged(fileHandle)
      ensures rc == 0 ==> fileHandle.openedFile == pfm.fs.files[fileName] && fileHandle.Synced()
    {
      rc := pfm.OpenFile(fileName, fileHandle);
    }

    /** closeFile: the paged file manager's. */
    method CloseFile(fileHandle: FileHandle) returns (rc: int)
      modifies fileHandle
      ensures rc == 0 || rc == -1
      ensures rc == -1 <==> old(fileHandle.openedFile) == null
      ensures fileHandle.openedFile == null
      ensures CountersOf(fileHandle) == old(CountersOf(fileHandle))
    {
      rc := pfm.CloseFile(fileHandle);
    }

    /**
     * insertRecord: build the record's stream, place it (PlaceRecord), and
     * return 0 and the RID {pageNum, numberOfSlots}. `garbage` is what the
     * uninitialised page buffer holds.
     */
    method InsertRecord(fileHandle: FileHandle, recordDescriptor: seq<Attribute>, data: seq<byte>, garbage: Page)
      returns (rc: int, rid: RID)
      requires fileHandle.openedFile != null
      requires Counted(fileHandle.openedFile.pages) && InsertableFile(fileHandle.openedFile.pages)
      requires InsertableRecord(recordDescriptor, data)
      modifies fileHandle, fileHandle.openedFile
      ensures rc == 0
      ensures fileHandle.openedFile == old(fileHandle.openedFile)
      ensures var f := old(fileHandle.openedFile.pages);
        var record := StoredRecord(recordDescriptor, data);
        fileHandle.openedFile.pages == InsertedFile(f, record, garbage) &&
        rid == ReturnedRid(f[1..], |record|) &&
        CountersOf(fileHandle) == InsertedCounters(f, |record|, old(CountersOf(fileHandle)))
    {
      var isNull := ExtractNullInformation(data, recordDescriptor);
      var record := CreateRecordStream(data, recordDescriptor, isNull);
      var pageNum, numberOfSlots := PlaceRecord(fileHandle, record, garbage);
      rid := RID(pageNum, numberOfSlots % 0x1_0000);
      rc := 0;
    }

    /**
     * readRecord: read page rid.pageNum into an uninitialised buffer (holding
     * `garbage`), ignoring readPage's result; take slot rid.slotNum's offset and
     * length from PAGE_SIZE - 8 - 8 * slotNum and copy `length` bytes from
     * `offset` to the caller's buffer. Always returns 0.
     */
    method ReadRecord(fileHandle: FileHandle, recordDescriptor: seq<Attribute>, rid: RID, data: array<byte>, garbage: Page)
      returns (rc: int)
      requires fileHandle.Attached() && rid.slotNum <= MAX_SLOT
      requires var p := PageSeen(fileHandle.openedFile.pages, rid.pageNum, garbage);
        SlotOffset(p, rid.slotNum) + SlotLength(p, rid.slotNum) <= PAGE_SIZE &&
        SlotLength(p, rid.slotNum) <= data.Length
      modifies fileHandle, fileHandle.openedFile, data
      ensures rc == 0
      ensures fileHandle.openedFile == old(fileHandle.openedFile)
      ensures data[..] ==
        Write(old(data[..]), 0, RecordAt(PageSeen(old(fileHandle.openedFile.pages), rid.pageNum, garbage), rid.slotNum))
      ensures fileHandle.openedFile.pages ==
        if rid.pageNum <= old(fileHandle.StoredCounter(NUM_PAGES_SLOT))
        then WithCounter(old(fileHandle.openedFile.pages), READ_SLOT, Inc32(old(fileHandle.StoredCounter(READ_SLOT))))
        else old(fileHandle.openedFile.pages)
      ensures fileHandle.readPageCounter ==
        if rid.pageNum <= old(fileHandle.StoredCounter(NUM_PAGES_SLOT))
        then Inc32(old(fileHandle.StoredCounter(READ_SLOT)))
        else old(fileHandle.readPageCounter)
      ensures fileHandle.writePageCounter == old(fileHandle.writePageCounter)
      ensures fileHandle.appendPageCounter == old(fileHandle.appendPageCounter)
    {
      var page := new byte[PAGE_SIZE](i requires 0 <= i < PAGE_SIZE => garbage[i]);
      assert page[..] == garbage;
      var _ := fileHandle.ReadPage(rid.pageNum, page);
      assert page[..] == PageSeen(old(fileHandle.openedFile.pages), rid.pageNum, garbage);
      var entry := PAGE_SIZE - 8 - rid.slotNum * 8;
      var offset := ReadU32(page[..], entry);
      var length := ReadU32(page[..], entry + 4);
      CopyInto(data, 0, page[offset..offset + length]);
      rc := 0;
    }
  }
}
