/**
 * The paged file layer (src/include/pfm.h, src/pfm/pfm.cc).
 *
 * An OS file is a sequence of PAGE_SIZE pages. Physical page 0 is the hidden
 * metadata page: four `unsigned` counters at byte offsets 0, 4, 8 and 12
 * (number of data pages, reads, writes, appends). Logical page n is physical
 * page n + 1. A `FileHandle` keeps the three I/O counters in memory as well as
 * in the hidden page, and refers to the OS file it has open.
 */
module Pfm {
  import opened Bytes

  const PAGE_SIZE: nat := 4096

  /** A whole page of bytes. Every transfer of the paged file layer moves exactly one. */
  type Page = s: seq<byte> | |s| == PAGE_SIZE witness seq(4096, _ => 0)

  /** Index of a counter in the hidden page; counter k sits at byte 4 * k. */
  type CounterSlot = k: nat | k < 4

  const NUM_PAGES_SLOT: CounterSlot := 0
  const READ_SLOT: CounterSlot := 1
  const WRITE_SLOT: CounterSlot := 2
  const APPEND_SLOT: CounterSlot := 3

  function ZeroPage(): Page
  {
    seq(PAGE_SIZE, _ => 0)
  }

  /**
   * The value a counter getter returns: `fseek` to byte 4 * slot and `fread` one
   * `unsigned` into a local initialised to 0 (so 0 when the file is empty).
   */
  function CounterOf(pages: seq<Page>, slot: CounterSlot): u32
  {
    if |pages| == 0 then 0 else ReadU32(pages[0], 4 * slot)
  }

  lemma WithCounterEffect(pages: seq<Page>, slot: CounterSlot, v: u32)
    requires |pages| >= 1
    ensures var h := Write(pages[0], 4 * slot, EncodeU32(v));
      ReadU32(h, 4 * slot) == v &&
      (forall k: CounterSlot :: k != slot ==> ReadU32(h, 4 * k) == ReadU32(pages[0], 4 * k)) &&
      h[16..] == pages[0][16..]
  {
    var h := Write(pages[0], 4 * slot, EncodeU32(v));
    ReadU32AfterWrite(pages[0], 4 * slot, v);
    forall k: CounterSlot | k != slot
      ensures ReadU32(h, 4 * k) == ReadU32(pages[0], 4 * k)
    {
      ReadU32AfterOtherWrite(pages[0], 4 * slot, EncodeU32(v), 4 * k);
    }
    WriteKeepsSlice(pages[0], 4 * slot, EncodeU32(v), 16, PAGE_SIZE);
  }

  /** The file after a counter setter: `fseek` to byte 4 * slot and `fwrite` one `unsigned`. */
  function WithCounter(pages: seq<Page>, slot: CounterSlot, v: u32): (r: seq<Page>)
    requires |pages| >= 1
    ensures |r| == |pages| && r[1..] == pages[1..]
    ensures CounterOf(r, slot) == v
    ensures forall k: CounterSlot :: k != slot ==> CounterOf(r, k) == CounterOf(pages, k)
    ensures r[0][16..] == pages[0][16..]
  {
    WithCounterEffect(pages, slot, v);
    pages[0 := Write(pages[0], 4 * slot, EncodeU32(v))]
  }

  /** Storing a counter twice leaves only the second value. */
  lemma WithCounterTwice(pages: seq<Page>, slot: CounterSlot, a: u32, b: u32)
    requires |pages| >= 1
    ensures WithCounter(WithCounter(pages, slot, a), slot, b) == WithCounter(pages, slot, b)
  {
    WriteTwice(pages[0], 4 * slot, EncodeU32(a), EncodeU32(b));
  }

  /**
   * Byte offset of logical page `pageNum`: `pageNum * PAGE_SIZE + PAGE_SIZE`,
   * evaluated in 32-bit unsigned arithmetic as in readPage and writePage.
   */
  function PageOffset(pageNum: u32): u32
  {
    ((pageNum + 1) * PAGE_SIZE) % U32_MODULUS
  }

  /** The physical page that PageOffset(pageNum) addresses. */
  function PhysicalIndex(pageNum: u32): nat
  {
    PageOffset(pageNum) / PAGE_SIZE
  }

  /** Below 2^20 - 1 the offset does not wrap: logical page n is physical page n + 1, at byte (n + 1) * PAGE_SIZE. */
  lemma PhysicalIndexOfDataPage(pageNum: u32)
    requires pageNum < 0xF_FFFF
    ensures PageOffset(pageNum) == (pageNum + 1) * PAGE_SIZE
    ensures PhysicalIndex(pageNum) == pageNum + 1
  {
    assert (pageNum + 1) * PAGE_SIZE < U32_MODULUS;
  }

  /** At logical page 2^20 - 1 the 32-bit offset wraps to 0, the hidden page. */
  lemma PageOffsetWrapsToHiddenPage()
    ensures PageOffset(0xF_FFFF) == 0 && PhysicalIndex(0xF_FFFF) == 0
  {
  }

  /**
   * The file after `fseek` to physical page `idx` and `fwrite` of one page: an
   * existing page is overwritten; past the end the file grows, the gap reading as zeros.
   */
  function PutPage(pages: seq<Page>, idx: nat, p: Page): (r: seq<Page>)
    ensures |r| == if idx < |pages| then |pages| else idx + 1
    ensures r[idx] == p
    ensures forall j :: 0 <= j < |pages| && j != idx ==> r[j] == pages[j]
  {
    if idx < |pages| then pages[idx := p]
    else pages + seq(idx - |pages|, _ => ZeroPage()) + [p]
  }

  /**
   * The file after appendPage(p): the page goes at the end of the file, then the
   * append counter and then the page count are each read back and stored plus one.
   */
  function AppendedPages(pages: seq<Page>, p: Page): (r: seq<Page>)
    requires |pages| >= 1
    ensures |r| == |pages| + 1 && r[|pages|] == p && r[1..|pages|] == pages[1..]
    ensures CounterOf(r, NUM_PAGES_SLOT) == Inc32(CounterOf(pages, NUM_PAGES_SLOT))
    ensures CounterOf(r, READ_SLOT) == CounterOf(pages, READ_SLOT)
    ensures CounterOf(r, WRITE_SLOT) == CounterOf(pages, WRITE_SLOT)
    ensures CounterOf(r, APPEND_SLOT) == Inc32(CounterOf(pages, APPEND_SLOT))
    ensures r[0][16..] == pages[0][16..]
  {
    var grown := pages + [p];
    assert grown[0] == pages[0] && grown[1..|pages|] == pages[1..];
    var counted := WithCounter(grown, APPEND_SLOT, Inc32(CounterOf(grown, APPEND_SLOT)));
    WithCounter(counted, NUM_PAGES_SLOT, Inc32(CounterOf(counted, NUM_PAGES_SLOT)))
  }

  /** An OS file, as an open `FILE *` sees it. */
  class OsFile {
    var pages: seq<Page>

    /** `fopen(name, "wb+")`: a new, empty file. */
    constructor ()
      ensures pages == []
    {
      pages := [];
    }
  }

  /** The OS directory: which names exist, and the file each names. */
  class FileSystem {
    var files: map<string, OsFile>

    constructor ()
      ensures files == map[]
    {
      files := map[];
    }
  }

  class FileHandle {
    var readPageCounter: u32
    var writePageCounter: u32
    var appendPageCounter: u32
    var openedFile: OsFile?

    /** A handle starts detached, with all three counters at zero. */
    constructor ()
      ensures openedFile == null
      ensures readPageCounter == 0 && writePageCounter == 0 && appendPageCounter == 0
    {
      openedFile := null;
      readPageCounter := 0;
      writePageCounter := 0;
      appendPageCounter := 0;
    }

    /** A file is attached and holds at least its hidden page. */
    ghost predicate Attached()
      reads this, openedFile
    {
      openedFile != null && |openedFile.pages| >= 1
    }

    /** The counter stored in the attached file at byte 4 * slot. */
    function StoredCounter(slot: CounterSlot): u32
      reads this, openedFile
      requires openedFile != null
    {
      CounterOf(openedFile.pages, slot)
    }

    /** The in-memory counters agree with the ones stored in the file. */
    ghost predicate Synced()
      reads this, openedFile
    {
      openedFile != null &&
      readPageCounter == StoredCounter(READ_SLOT) &&
      writePageCounter == StoredCounter(WRITE_SLOT) &&
      appendPageCounter == StoredCounter(APPEND_SLOT)
    }

    /** The page count in the hidden page matches the data pages the file holds. */
    ghost predicate Consistent()
      reads this, openedFile
    {
      openedFile != null && |openedFile.pages| == StoredCounter(NUM_PAGES_SLOT) + 1
    }

    /** getReadPageCnt, getWritePageCnt, getAppendPageCnt: read one stored counter. */
    method GetCounter(slot: CounterSlot) returns (v: u32)
      requires openedFile != null
      ensures v == StoredCounter(slot)
      ensures |openedFile.pages| >= 1 ==> v == ReadU32(openedFile.pages[0], 4 * slot)
    {
      v := CounterOf(openedFile.pages, slot);
    }

    /**
     * getNumberOfPages: the page count stored at byte 0 of the hidden page, which
     * counts data pages only (see Consistent and CountsItsPages).
     */
    method GetNumberOfPages() returns (n: u32)
      requires openedFile != null
      ensures n == StoredCounter(NUM_PAGES_SLOT)
      ensures Consistent() ==> n == |openedFile.pages| - 1
    {
      n := GetCounter(NUM_PAGES_SLOT);
    }

    /** setNumberOfPages, setReadPageCnt, setWritePageCnt, setAppendPageCnt. */
    method SetCounter(slot: CounterSlot, v: u32)
      requires Attached()
      modifies openedFile
      ensures openedFile.pages == WithCounter(old(openedFile.pages), slot, v)
    {
      openedFile.pages := WithCounter(openedFile.pages, slot, v);
    }

    /** `fread` of one page: copies PAGE_SIZE bytes into the caller's buffer. */
    static method CopyPage(data: array<byte>, p: Page)
      requires data.Length >= PAGE_SIZE
      modifies data
      ensures data[..] == p + old(data[PAGE_SIZE..])
    {
      forall i | 0 <= i < PAGE_SIZE {
        data[i] := p[i];
      }
      assert data[..] == data[..PAGE_SIZE] + data[PAGE_SIZE..];
    }

    /**
     * readPage: the guard admits pageNum == getNumberOfPages(), one past the last
     * page; there `fread` finds the end of the file and leaves the buffer as it was,
     * yet the read counter still goes up and 0 is returned.
     */
    method ReadPage(pageNum: u32, data: array<byte>) returns (rc: int)
      requires Attached() && data.Length >= PAGE_SIZE
      modifies this, openedFile, data
      ensures openedFile == old(openedFile) && Attached()
      ensures writePageCounter == old(writePageCounter) && appendPageCounter == old(appendPageCounter)
      ensures pageNum <= old(StoredCounter(NUM_PAGES_SLOT)) ==>
        rc == 0 &&
        readPageCounter == Inc32(old(StoredCounter(READ_SLOT))) &&
        openedFile.pages == WithCounter(old(openedFile.pages), READ_SLOT, readPageCounter) &&
        data[..] == if PhysicalIndex(pageNum) < old(|openedFile.pages|)
                    then old(openedFile.pages[PhysicalIndex(pageNum)]) + old(data[PAGE_SIZE..])
                    else old(data[..])
      ensures pageNum > old(StoredCounter(NUM_PAGES_SLOT)) ==>
        rc == -1 && readPageCounter == old(readPageCounter) &&
        openedFile.pages == old(openedFile.pages) && data[..] == old(data[..])
    {
      var totalPages := GetNumberOfPages();
      if pageNum <= totalPages {
        var idx := PhysicalIndex(pageNum);
        if idx < |openedFile.pages| {
          CopyPage(data, openedFile.pages[idx]);
        }
        var stored := GetCounter(READ_SLOT);
        readPageCounter := Inc32(stored);
        SetCounter(READ_SLOT, readPageCounter);
        rc := 0;
      } else {
        rc := -1;
      }
    }

    /**
     * writePage: on an empty file, page 0 is appended instead (and -1 is still
     * returned); otherwise the guard admits pageNum == getNumberOfPages(), which
     * writes one page past the last without counting it.
     */
    method WritePage(pageNum: u32, data: array<byte>) returns (rc: int)
      requires Attached() && data.Length >= PAGE_SIZE
      modifies this, openedFile
      ensures openedFile == old(openedFile) && Attached()
      ensures readPageCounter == old(readPageCounter)
      ensures var total := old(StoredCounter(NUM_PAGES_SLOT));
        var f := old(openedFile.pages);
        var p := data[..PAGE_SIZE];
        if total == 0 && pageNum == 0 then
          rc == -1 &&
          openedFile.pages == AppendedPages(f, p) &&
          appendPageCounter == Inc32(CounterOf(f, APPEND_SLOT)) &&
          writePageCounter == old(writePageCounter)
        else if pageNum <= total then
          var written := PutPage(f, PhysicalIndex(pageNum), p);
          rc == 0 &&
          writePageCounter == Inc32(CounterOf(written, WRITE_SLOT)) &&
          openedFile.pages == WithCounter(written, WRITE_SLOT, writePageCounter) &&
          appendPageCounter == old(appendPageCounter)
        else
          rc == -1 && openedFile.pages == f &&
          writePageCounter == old(writePageCounter) && appendPageCounter == old(appendPageCounter)
    {
      var totalPages := GetNumberOfPages();
      if totalPages == 0 && pageNum == 0 {
        var _ := AppendPage(data);
        rc := -1;
      } else if pageNum <= totalPages {
        openedFile.pages := PutPage(openedFile.pages, PhysicalIndex(pageNum), data[..PAGE_SIZE]);
        var stored := GetCounter(WRITE_SLOT);
        writePageCounter := Inc32(stored);
        SetCounter(WRITE_SLOT, writePageCounter);
        rc := 0;
      } else {
        rc := -1;
      }
    }

    /** appendPage: the page goes at the end; the append counter and the page count rise by one. */
    method AppendPage(data: array<byte>) returns (rc: int)
      requires Attached() && data.Length >= PAGE_SIZE
      modifies this, openedFile
      ensures openedFile == old(openedFile) && Attached()
      ensures rc == 0
      ensures openedFile.pages == AppendedPages(old(openedFile.pages), data[..PAGE_SIZE])
      ensures appendPageCounter == Inc32(old(StoredCounter(APPEND_SLOT)))
      ensures readPageCounter == old(readPageCounter) && writePageCounter == old(writePageCounter)
    {
      ghost var f := openedFile.pages;
      openedFile.pages := openedFile.pages + [data[..PAGE_SIZE]];
      assert openedFile.pages[0] == f[0];
      var storedAppends := GetCounter(APPEND_SLOT);
      appendPageCounter := Inc32(storedAppends);
      SetCounter(APPEND_SLOT, appendPageCounter);
      var storedPages := GetNumberOfPages();
      SetCounter(NUM_PAGES_SLOT, Inc32(storedPages));
      rc := 0;
    }

    /** collectCounterValues: the in-memory counters; nothing changes. */
    method CollectCounterValues() returns (rc: int, readPageCount: u32, writePageCount: u32, appendPageCount: u32)
      ensures rc == 0
      ensures readPageCount == readPageCounter
      ensures writePageCount == writePageCounter
      ensures appendPageCount == appendPageCounter
    {
      readPageCount := readPageCounter;
      writePageCount := writePageCounter;
      appendPageCount := appendPageCounter;
      rc := 0;
    }

    /** updateOpenedFile: attach the file and load the counters stored at bytes 4, 8 and 12. */
    method UpdateOpenedFile(pageFile: OsFile)
      modifies this
      ensures openedFile == pageFile
      ensures readPageCounter == CounterOf(pageFile.pages, READ_SLOT)
      ensures writePageCounter == CounterOf(pageFile.pages, WRITE_SLOT)
      ensures appendPageCounter == CounterOf(pageFile.pages, APPEND_SLOT)
      ensures Synced()
    {
      openedFile := pageFile;
      readPageCounter := GetCounter(READ_SLOT);
      writePageCounter := GetCounter(WRITE_SLOT);
      appendPageCounter := GetCounter(APPEND_SLOT);
    }

    /**
     * createHiddenPage: the four zero counters are copied into a fresh `malloc`
     * buffer, whose contents are `garbage`. The cursor is never advanced (the
     * expression `bytePtr + storage_size` is evaluated and discarded), so all four
     * copies land at offset 0 and bytes 4..PAGE_SIZE keep the buffer's garbage.
     */
    method CreateHiddenPage(garbage: Page)
      requires openedFile != null && openedFile.pages == []
      modifies openedFile
      ensures |openedFile.pages| == 1
      ensures openedFile.pages[0][..4] == EncodeU32(0)
      ensures openedFile.pages[0][4..] == garbage[4..]
    {
      var pageInfo: Page := garbage;
      var bytePtr := 0;
      ghost var before := pageInfo;
      pageInfo := Write(pageInfo, bytePtr, EncodeU32(0));  // numPages
      WriteKeepsSlice(before, bytePtr, EncodeU32(0), 4, PAGE_SIZE);
      before := pageInfo;
      pageInfo := Write(pageInfo, bytePtr, EncodeU32(0));  // readPageCnt
      WriteKeepsSlice(before, bytePtr, EncodeU32(0), 4, PAGE_SIZE);
      before := pageInfo;
      pageInfo := Write(pageInfo, bytePtr, EncodeU32(0));  // writePageCnt
      WriteKeepsSlice(before, bytePtr, EncodeU32(0), 4, PAGE_SIZE);
      before := pageInfo;
      pageInfo := Write(pageInfo, bytePtr, EncodeU32(0));  // appendPageCnt
      WriteKeepsSlice(before, bytePtr, EncodeU32(0), 4, PAGE_SIZE);
      openedFile.pages := [pageInfo];
    }
  }

  class PagedFileManager {
    const fs: FileSystem

    constructor (fs: FileSystem)
      ensures this.fs == fs
    {
      this.fs := fs;
    }

    /**
     * createFile: fails when the name exists; otherwise the new file holds just
     * the hidden page. `garbage` is what `malloc` returned for that page.
     */
    method CreateFile(fileName: string, garbage: Page) returns (rc: int)
      modifies fs
      ensures rc == 0 || rc == -1
      ensures rc == -1 <==> fileName in old(fs.files)
      ensures rc == -1 ==> fs.files == old(fs.files)
      ensures rc == 0 ==>
        fileName in fs.files && fresh(fs.files[fileName]) &&
        fs.files == old(fs.files)[fileName := fs.files[fileName]] &&
        |fs.files[fileName].pages| == 1 &&
        fs.files[fileName].pages[0][..4] == EncodeU32(0) &&
        fs.files[fileName].pages[0][4..] == garbage[4..]
    {
      if fileName !in fs.files {
        var pageFile := new OsFile();
        var fileHandle := new FileHandle();
        fileHandle.openedFile := pageFile;
        fileHandle.CreateHiddenPage(garbage);
        fs.files := fs.files[fileName := pageFile];
        return 0;
      }
      return -1;
    }

    /** destroyFile: fails when the name does not exist; otherwise the name is removed. */
    method DestroyFile(fileName: string) returns (rc: int)
      modifies fs
      ensures rc == 0 || rc == -1
      ensures rc == -1 <==> fileName !in old(fs.files)
      ensures fs.files == old(fs.files) - {fileName}
    {
      if fileName in fs.files {
        fs.files := fs.files - {fileName};
        return 0;
      }
      return -1;
    }

    /** openFile: fails when the name does not exist; otherwise attaches the file and loads its counters. */
    method OpenFile(fileName: string, fileHandle: FileHandle) returns (rc: int)
      modifies fileHandle
      ensures rc == 0 || rc == -1
      ensures rc == -1 <==> fileName !in fs.files
      ensures rc == -1 ==> unchanged(fileHandle)
      ensures rc == 0 ==>
        fileHandle.openedFile == fs.files[fileName] &&
        fileHandle.readPageCounter == CounterOf(fs.files[fileName].pages, READ_SLOT) &&
        fileHandle.writePageCounter == CounterOf(fs.files[fileName].pages, WRITE_SLOT) &&
        fileHandle.appendPageCounter == CounterOf(fs.files[fileName].pages, APPEND_SLOT)
    {
      if fileName in fs.files {
        fileHandle.UpdateOpenedFile(fs.files[fileName]);
        return 0;
      }
      return -1;
    }

    /** closeFile: fails when no file is attached; otherwise detaches it. The counters stay. */
    method CloseFile(fileHandle: FileHandle) returns (rc: int)
      modifies fileHandle
      ensures rc == 0 || rc == -1
      ensures rc == -1 <==> old(fileHandle.openedFile) == null
      ensures fileHandle.openedFile == null
      ensures fileHandle.readPageCounter == old(fileHandle.readPageCounter)
      ensures fileHandle.writePageCounter == old(fileHandle.writePageCounter)
      ensures fileHandle.appendPageCounter == old(fileHandle.appendPageCounter)
    {
      if fileHandle.openedFile != null {
        fileHandle.openedFile := null;
        return 0;
      }
      return -1;
    }
  }

  /** A file whose hidden page counts its data pages. */
  predicate CountsItsPages(pages: seq<Page>)
  {
    |pages| >= 1 && CounterOf(pages, NUM_PAGES_SLOT) == |pages| - 1
  }

  /** readPage stores only the read counter: the page count still counts the data pages. */
  lemma ReadPageKeepsCount(pages: seq<Page>, v: u32)
    requires CountsItsPages(pages)
    ensures CountsItsPages(WithCounter(pages, READ_SLOT, v))
  {
    assert CounterOf(WithCounter(pages, READ_SLOT, v), NUM_PAGES_SLOT) == CounterOf(pages, NUM_PAGES_SLOT);
  }

  /** writePage of an existing data page n keeps the file's length and its page count. */
  lemma WritePageKeepsCount(pages: seq<Page>, pageNum: u32, p: Page, v: u32)
    requires CountsItsPages(pages) && pageNum < |pages| - 1 && |pages| <= 0xF_FFFF
    ensures var written := PutPage(pages, PhysicalIndex(pageNum), p);
      CountsItsPages(WithCounter(written, WRITE_SLOT, v)) &&
      written[pageNum + 1] == p &&
      forall j :: 0 < j < |pages| && j != pageNum + 1 ==> written[j] == pages[j]
  {
    PhysicalIndexOfDataPage(pageNum);
    var written := PutPage(pages, pageNum + 1, p);
    assert written[0] == pages[0];
  }

  /** appendPage adds one page and raises the page count by one, so the count stays right. */
  lemma AppendPageKeepsCount(pages: seq<Page>, p: Page)
    requires CountsItsPages(pages) && |pages| < U32_MODULUS
    ensures CountsItsPages(AppendedPages(pages, p))
  {
  }

  /**
   * writePage one past the last data page (pageNum == getNumberOfPages(), which
   * its guard admits) grows the file by a page but leaves the page count as it
   * was: the count no longer covers the data pages.
   */
  lemma WritePastEndUncounted(pages: seq<Page>, p: Page, v: u32)
    requires CountsItsPages(pages) && |pages| <= 0xF_FFFF
    ensures var n := CounterOf(pages, NUM_PAGES_SLOT);
      var g := WithCounter(PutPage(pages, PhysicalIndex(n), p), WRITE_SLOT, v);
      |g| == |pages| + 1 && g[|pages|] == p && CounterOf(g, NUM_PAGES_SLOT) == |g| - 2
  {
    var n := CounterOf(pages, NUM_PAGES_SLOT);
    PhysicalIndexOfDataPage(n);
    var written := PutPage(pages, n + 1, p);
    assert written[0] == pages[0];
  }
}
